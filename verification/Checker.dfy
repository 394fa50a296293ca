/** Double-spend checks (ca/checker.cpp): the sort-and-intersect conflict test, the tests over pools
    and blocks built on it, and the block-level report of double spends. */
module Checker {
  import opened Ledger
  import opened Orders

  // ---------- input keys ----------

  /** The key of one spent output. The conflict test drops address and currency for contract inputs; the
      report does not. */
  function InputKey(v: Vin, prevout: string, currency: string, merge: bool): string {
    if merge && v.contractAddr != "" then prevout else prevout + "_" + v.addr + "_" + currency
  }

  function VinKeys(v: Vin, currency: string, merge: bool): seq<string> {
    seq(|v.prevouts|, i requires 0 <= i < |v.prevouts| => InputKey(v, v.prevouts[i], currency, merge))
  }

  function VinsKeys(vs: seq<Vin>, currency: string, merge: bool): seq<string> {
    if vs == [] then [] else VinsKeys(vs[..|vs| - 1], currency, merge) + VinKeys(vs[|vs| - 1], currency, merge)
  }

  function UtxosKeys(us: seq<Utxo>, merge: bool): seq<string> {
    if us == [] then []
    else UtxosKeys(us[..|us| - 1], merge) + VinsKeys(us[|us| - 1].vins, us[|us| - 1].assetType, merge)
  }

  /** The keys a transaction spends, in the order its inputs are walked. */
  function TxKeys(tx: Tx, merge: bool): seq<string> {
    UtxosKeys(tx.utxos, merge)
  }

  method CollectKeys(tx: Tx, merge: bool) returns (keys: seq<string>)
    ensures keys == TxKeys(tx, merge)
  {
    keys := [];
    for i := 0 to |tx.utxos|
      invariant keys == UtxosKeys(tx.utxos[..i], merge)
    {
      keys := CollectVins(keys, tx.utxos[i], merge);
      assert tx.utxos[..i + 1][..i] == tx.utxos[..i];
    }
    assert tx.utxos[..|tx.utxos|] == tx.utxos;
  }

  /** The walk over the inputs of one utxo. */
  method CollectVins(start: seq<string>, utxo: Utxo, merge: bool) returns (keys: seq<string>)
    ensures keys == start + VinsKeys(utxo.vins, utxo.assetType, merge)
  {
    keys := start;
    for j := 0 to |utxo.vins|
      invariant keys == start + VinsKeys(utxo.vins[..j], utxo.assetType, merge)
    {
      keys := CollectPrevouts(keys, utxo.vins[j], utxo.assetType, merge);
      assert utxo.vins[..j + 1][..j] == utxo.vins[..j];
    }
    assert utxo.vins[..|utxo.vins|] == utxo.vins;
  }

  /** The walk over the outputs one input spends. */
  method CollectPrevouts(start: seq<string>, vin: Vin, currency: string, merge: bool) returns (keys: seq<string>)
    ensures keys == start + VinKeys(vin, currency, merge)
  {
    keys := start;
    for k := 0 to |vin.prevouts|
      invariant keys == start + VinKeys(vin, currency, merge)[..k]
    {
      keys := keys + [InputKey(vin, vin.prevouts[k], currency, merge)];
    }
  }

  // ---------- what the keys identify ----------

  /** The p-th output that the j-th input of the i-th utxo spends. */
  predicate Spends(tx: Tx, i: nat, j: nat, p: nat) {
    i < |tx.utxos| && j < |tx.utxos[i].vins| && p < |tx.utxos[i].vins[j].prevouts|
  }

  function KeyOf(tx: Tx, i: nat, j: nat, p: nat, merge: bool): string
    requires Spends(tx, i, j, p)
  {
    InputKey(tx.utxos[i].vins[j], tx.utxos[i].vins[j].prevouts[p], tx.utxos[i].assetType, merge)
  }

  lemma {:induction false} VinsKeyAt(vs: seq<Vin>, currency: string, merge: bool, k: string)
    ensures k in VinsKeys(vs, currency, merge) <==>
      exists j, p :: 0 <= j < |vs| && 0 <= p < |vs[j].prevouts|
        && InputKey(vs[j], vs[j].prevouts[p], currency, merge) == k
  {
    if vs != [] {
      var n := |vs| - 1;
      VinsKeyAt(vs[..n], currency, merge, k);
      assert k in VinKeys(vs[n], currency, merge) <==>
        exists p :: 0 <= p < |vs[n].prevouts| && InputKey(vs[n], vs[n].prevouts[p], currency, merge) == k by {
        if p :| 0 <= p < |vs[n].prevouts| && InputKey(vs[n], vs[n].prevouts[p], currency, merge) == k {
          assert VinKeys(vs[n], currency, merge)[p] == k;
        }
      }
      if j, p :| 0 <= j < n && 0 <= p < |vs[..n][j].prevouts|
                 && InputKey(vs[..n][j], vs[..n][j].prevouts[p], currency, merge) == k {
        assert vs[j] == vs[..n][j] && InputKey(vs[j], vs[j].prevouts[p], currency, merge) == k;
      }
      if j, p :| 0 <= j < n && 0 <= p < |vs[j].prevouts| && InputKey(vs[j], vs[j].prevouts[p], currency, merge) == k {
        assert vs[j] == vs[..n][j] && InputKey(vs[..n][j], vs[..n][j].prevouts[p], currency, merge) == k;
      }
    }
  }

  lemma {:induction false} UtxosKeyAt(us: seq<Utxo>, merge: bool, k: string)
    ensures k in UtxosKeys(us, merge)
        <==> exists i :: 0 <= i < |us| && k in VinsKeys(us[i].vins, us[i].assetType, merge)
  {
    if us != [] {
      var n := |us| - 1;
      UtxosKeyAt(us[..n], merge, k);
      assert forall i :: 0 <= i < n ==> us[..n][i] == us[i];
    }
  }

  /** A key of a transaction is the key of one of the outputs it spends. */
  lemma {:induction false} TxKeyAt(tx: Tx, merge: bool, k: string)
    ensures k in TxKeys(tx, merge)
        <==> exists i: nat, j: nat, p: nat :: Spends(tx, i, j, p) && KeyOf(tx, i, j, p, merge) == k
  {
    UtxosKeyAt(tx.utxos, merge, k);
    forall i | 0 <= i < |tx.utxos|
      ensures k in VinsKeys(tx.utxos[i].vins, tx.utxos[i].assetType, merge) <==>
        exists j: nat, p: nat :: Spends(tx, i, j, p) && KeyOf(tx, i, j, p, merge) == k
    {
      VinsKeyAt(tx.utxos[i].vins, tx.utxos[i].assetType, merge, k);
      if j: nat, p: nat :| Spends(tx, i, j, p) && KeyOf(tx, i, j, p, merge) == k {
        assert InputKey(tx.utxos[i].vins[j], tx.utxos[i].vins[j].prevouts[p], tx.utxos[i].assetType, merge) == k;
      }
      var vs, currency := tx.utxos[i].vins, tx.utxos[i].assetType;
      if j, p :| 0 <= j < |vs| && 0 <= p < |vs[j].prevouts|
                 && InputKey(vs[j], vs[j].prevouts[p], currency, merge) == k {
        assert Spends(tx, i, j, p) && KeyOf(tx, i, j, p, merge) == k;
      }
    }
  }

  ghost predicate NoSeparator(s: string) {
    forall i :: 0 <= i < |s| ==> s[i] != '_'
  }

  lemma {:induction false} LastSeparator(s: string, a: string, b: string)
    requires NoSeparator(b) && s == a + "_" + b
    ensures |a| < |s| && s[|a|] == '_' && s[..|a|] == a && s[|a| + 1..] == b
    ensures forall k :: |a| < k < |s| ==> s[k] != '_'
  {
    forall k | |a| < k < |s| ensures s[k] != '_' {
      assert s[k] == b[k - |a| - 1];
    }
  }

  /** The part after the last separator is determined, and so is the rest. */
  lemma {:induction false} LastPart(a: string, b: string, c: string, d: string)
    requires NoSeparator(b) && NoSeparator(d) && a + "_" + b == c + "_" + d
    ensures a == c && b == d
  {
    var s := a + "_" + b;
    LastSeparator(s, a, b);
    LastSeparator(s, c, d);
    assert |a| == |c|;
  }

  /** What an input key stands for: the output, and how it is spent. */
  datatype Spent = Spent(output: string, addr: string, currency: string, byContract: bool)

  ghost predicate WellNamed(o: Spent) {
    NoSeparator(o.output) && NoSeparator(o.addr) && NoSeparator(o.currency)
  }

  function ByInput(v: Vin, prevout: string, currency: string): Spent {
    Spent(prevout, v.addr, currency, v.contractAddr != "")
  }

  /** The keys of the report are equal exactly for the same output, address and currency. */
  lemma {:induction false} SameReportKeyIff(v: Vin, g: string, c: string, w: Vin, h: string, d: string)
    requires NoSeparator(v.addr) && NoSeparator(w.addr) && NoSeparator(c) && NoSeparator(d)
    ensures InputKey(v, g, c, false) == InputKey(w, h, d, false) <==> g == h && v.addr == w.addr && c == d
  {
    if InputKey(v, g, c, false) == InputKey(w, h, d, false) {
      LastPart(g + "_" + v.addr, c, h + "_" + w.addr, d);
      LastPart(g, v.addr, h, w.addr);
    }
  }

  /** The keys of the conflict test are equal exactly for the same output spent by contracts, or the same output,
      address and currency spent by key holders. */
  lemma {:induction false} SameConflictKeyIff(v: Vin, g: string, c: string, w: Vin, h: string, d: string)
    requires WellNamed(ByInput(v, g, c)) && WellNamed(ByInput(w, h, d))
    ensures InputKey(v, g, c, true) == InputKey(w, h, d, true)
       <==> g == h && ((v.contractAddr != "" && w.contractAddr != "")
            || (v.contractAddr == "" && w.contractAddr == "" && v.addr == w.addr && c == d))
  {
    if v.contractAddr == "" && w.contractAddr == "" {
      SameReportKeyIff(v, g, c, w, h, d);
    } else if v.contractAddr == "" {
      assert InputKey(v, g, c, true)[|g|] == '_' && |InputKey(v, g, c, true)| > |g|;
    } else if w.contractAddr == "" {
      assert InputKey(w, h, d, true)[|h|] == '_' && |InputKey(w, h, d, true)| > |h|;
    }
  }

  /** The transaction spends the output so. */
  ghost predicate SpendsAs(tx: Tx, o: Spent) {
    exists i: nat, j: nat, p: nat :: Spends(tx, i, j, p)
      && o == ByInput(tx.utxos[i].vins[j], tx.utxos[i].vins[j].prevouts[p], tx.utxos[i].assetType)
  }

  ghost predicate AllWellNamed(tx: Tx) {
    forall o :: SpendsAs(tx, o) ==> WellNamed(o)
  }

  /** Both spend the output through contracts, or both as the holder of the same address in the same currency. */
  predicate SameSpent(o: Spent, q: Spent) {
    && o.output == q.output && o.byContract == q.byContract
    && (o.byContract || (o.addr == q.addr && o.currency == q.currency))
  }

  ghost predicate SpendTheSame(tx1: Tx, tx2: Tx) {
    exists o, q :: SpendsAs(tx1, o) && SpendsAs(tx2, q) && SameSpent(o, q)
  }

  lemma {:induction false} KeyHasSpent(tx: Tx, merge: bool, k: string)
    returns (v: Vin, prevout: string, currency: string)
    requires k in TxKeys(tx, merge)
    ensures SpendsAs(tx, ByInput(v, prevout, currency)) && k == InputKey(v, prevout, currency, merge)
  {
    TxKeyAt(tx, merge, k);
    var i: nat, j: nat, p: nat :| Spends(tx, i, j, p) && KeyOf(tx, i, j, p, merge) == k;
    v := tx.utxos[i].vins[j];
    prevout, currency := v.prevouts[p], tx.utxos[i].assetType;
  }

  lemma {:induction false} SpentHasKey(tx: Tx, merge: bool, o: Spent) returns (v: Vin)
    requires SpendsAs(tx, o)
    ensures o == ByInput(v, o.output, o.currency) && InputKey(v, o.output, o.currency, merge) in TxKeys(tx, merge)
  {
    var i: nat, j: nat, p: nat :| Spends(tx, i, j, p)
      && o == ByInput(tx.utxos[i].vins[j], tx.utxos[i].vins[j].prevouts[p], tx.utxos[i].assetType);
    v := tx.utxos[i].vins[j];
    TxKeyAt(tx, merge, KeyOf(tx, i, j, p, merge));
  }

  /** Transactions whose outputs, addresses and currencies hold no separator conflict exactly when they spend the
      same output of the same address in the same currency, or the same output through contracts. */
  lemma {:induction false} ConflictIffSpendTheSame(tx1: Tx, tx2: Tx)
    requires AllWellNamed(tx1) && AllWellNamed(tx2)
    ensures Conflict(tx1, tx2) <==> SpendTheSame(tx1, tx2)
  {
    if k :| k in TxKeys(tx1, true) && k in TxKeys(tx2, true) {
      var v, g, c := KeyHasSpent(tx1, true, k);
      var w, h, d := KeyHasSpent(tx2, true, k);
      SameConflictKeyIff(v, g, c, w, h, d);
      assert SameSpent(ByInput(v, g, c), ByInput(w, h, d));
    }
    if o, q :| SpendsAs(tx1, o) && SpendsAs(tx2, q) && SameSpent(o, q) {
      var v := SpentHasKey(tx1, true, o);
      var w := SpentHasKey(tx2, true, q);
      SameConflictKeyIff(v, o.output, o.currency, w, q.output, q.currency);
      assert InputKey(v, o.output, o.currency, true) in TxKeys(tx2, true);
    }
  }

  // ---------- conflicts ----------

  /** Two transactions spend a common key. */
  predicate Conflict(tx1: Tx, tx2: Tx) {
    exists k :: k in TxKeys(tx1, true) && k in TxKeys(tx2, true)
  }

  lemma {:induction false} ConflictSymmetric(tx1: Tx, tx2: Tx)
    ensures Conflict(tx1, tx2) <==> Conflict(tx2, tx1)
  {
  }

  lemma {:induction false} CommonElement(both: seq<string>, a: seq<string>, b: seq<string>)
    requires multiset(both) == multiset(a) * multiset(b)
    ensures both != [] <==> exists k :: k in a && k in b
  {
    if both != [] {
      assert both[0] in multiset(both);
      assert both[0] in a && both[0] in b;
    }
    if k :| k in a && k in b {
      assert k in multiset(a) && k in multiset(b);
      assert k in multiset(both);
    }
  }

  lemma {:induction false} SharedIffIntersecting(a: seq<string>, b: seq<string>)
    ensures Intersection(Sort(a), Sort(b)) != [] <==> exists k :: k in a && k in b
  {
    SortSorts(a);
    SortSorts(b);
    MergeLoopsExact(Sort(a), Sort(b));
    CommonElement(Intersection(Sort(a), Sort(b)), a, b);
  }

  /** Sorting both key vectors and intersecting them decides "spend a common key". */
  method CheckConflict(tx1: Tx, tx2: Tx) returns (conflict: bool)
    ensures conflict <==> Conflict(tx1, tx2)
    ensures AllWellNamed(tx1) && AllWellNamed(tx2) ==> (conflict <==> SpendTheSame(tx1, tx2))
  {
    if AllWellNamed(tx1) && AllWellNamed(tx2) { ConflictIffSpendTheSame(tx1, tx2); }
    var vec1 := CollectKeys(tx1, true);
    var vec2 := CollectKeys(tx2, true);
    SharedIffIntersecting(vec1, vec2);
    return Intersection(Sort(vec1), Sort(vec2)) != [];
  }

  method CheckConflictWithPool(tx: Tx, cache: seq<Tx>) returns (conflict: bool)
    ensures conflict <==> exists i :: 0 <= i < |cache| && Conflict(cache[i], tx)
  {
    for i := 0 to |cache|
      invariant forall j :: 0 <= j < i ==> !Conflict(cache[j], tx)
    {
      var hit := CheckConflict(cache[i], tx);
      if hit {
        return true;
      }
    }
    return false;
  }

  /** Some ordinary transaction of one block spends a key of an ordinary transaction of the other. */
  predicate BlocksConflict(block1: Block, block2: Block) {
    exists i, j :: 0 <= i < |block1.txs| && 0 <= j < |block2.txs| && TxsClash(block1.txs[i], block2.txs[j])
  }

  predicate TxsClash(tx1: Tx, tx2: Tx) {
    tx1.normal && tx2.normal && Conflict(tx1, tx2)
  }

  lemma {:induction false} BlocksConflictSymmetric(block1: Block, block2: Block)
    requires BlocksConflict(block1, block2)
    ensures BlocksConflict(block2, block1)
  {
    var i, j :| 0 <= i < |block1.txs| && 0 <= j < |block2.txs| && TxsClash(block1.txs[i], block2.txs[j]);
    ConflictSymmetric(block1.txs[i], block2.txs[j]);
    assert TxsClash(block2.txs[j], block1.txs[i]);
  }

  /** In blocks of well-named transactions: some ordinary transaction of one spends what an ordinary one of the
      other spends. */
  lemma {:induction false} BlocksConflictIffSpendTheSame(block1: Block, block2: Block)
    requires forall i :: 0 <= i < |block1.txs| ==> AllWellNamed(block1.txs[i])
    requires forall j :: 0 <= j < |block2.txs| ==> AllWellNamed(block2.txs[j])
    ensures BlocksConflict(block1, block2) <==>
      exists i, j :: 0 <= i < |block1.txs| && 0 <= j < |block2.txs|
        && block1.txs[i].normal && block2.txs[j].normal && SpendTheSame(block1.txs[i], block2.txs[j])
  {
    forall i, j | 0 <= i < |block1.txs| && 0 <= j < |block2.txs|
      ensures Conflict(block1.txs[i], block2.txs[j]) <==> SpendTheSame(block1.txs[i], block2.txs[j])
    {
      ConflictIffSpendTheSame(block1.txs[i], block2.txs[j]);
    }
    if i, j :| 0 <= i < |block1.txs| && 0 <= j < |block2.txs|
               && block1.txs[i].normal && block2.txs[j].normal && SpendTheSame(block1.txs[i], block2.txs[j]) {
      assert TxsClash(block1.txs[i], block2.txs[j]);
    }
  }

  /** culprit is the first ordinary transaction of block1 that spends a key of an ordinary one of block2. */
  method CheckBlockConflict(block1: Block, block2: Block) returns (conflict: bool, culprit: nat)
    ensures conflict <==> BlocksConflict(block1, block2)
    ensures conflict ==> culprit < |block1.txs| && ClashesWith(block1.txs[culprit], block2)
    ensures conflict ==> forall p :: 0 <= p < culprit ==> !ClashesWith(block1.txs[p], block2)
  {
    culprit := 0;
    for i := 0 to |block1.txs|
      invariant forall p :: 0 <= p < i ==> !ClashesWith(block1.txs[p], block2)
    {
      if block1.txs[i].normal {
        var hit := CheckTxAgainstBlock(block1.txs[i], block2);
        if hit {
          ghost var j :| 0 <= j < |block2.txs| && TxsClash(block1.txs[i], block2.txs[j]);
          assert BlocksConflict(block1, block2);
          return true, i;
        }
      }
    }
    return false, culprit;
  }

  predicate ClashesWith(tx: Tx, block: Block) {
    exists j :: 0 <= j < |block.txs| && TxsClash(tx, block.txs[j])
  }

  /** The inner walk. */
  method CheckTxAgainstBlock(tx: Tx, block: Block) returns (hit: bool)
    requires tx.normal
    ensures hit <==> ClashesWith(tx, block)
  {
    for j := 0 to |block.txs|
      invariant forall q :: 0 <= q < j ==> !TxsClash(tx, block.txs[q])
    {
      if block.txs[j].normal {
        hit := CheckConflict(tx, block.txs[j]);
        if hit {
          return true;
        }
      }
    }
    return false;
  }

  // ---------- transactions with one input ----------

  function OneInput(v: Vin): Tx {
    Tx("", true, Transfer, 0, [Utxo("MM", [v])])
  }

  lemma {:induction false} OneInputKeys(v: Vin, h: string, merge: bool)
    requires v.prevouts == [h]
    ensures TxKeys(OneInput(v), merge) == [InputKey(v, h, "MM", merge)]
  {
    assert VinKeys(v, "MM", merge) == [InputKey(v, h, "MM", merge)];
    assert [v][..0] == [];
    assert VinsKeys([v], "MM", merge) == VinsKeys([], "MM", merge) + VinKeys(v, "MM", merge);
    var us := [Utxo("MM", [v])];
    assert us[..0] == [];
    assert UtxosKeys(us, merge) == UtxosKeys([], merge) + VinsKeys([v], "MM", merge);
  }
}
