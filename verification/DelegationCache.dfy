/** The cache of delegated amounts (ca/bonus_addr_cache.cpp): an entry is scanned from the store when it
    is dirty or below the minimum, and answers from memory otherwise. */
module DelegationCache {

  const TWO64 := 0x1_0000_0000_0000_0000

  /** Outputs per utxo: address and value. */
  datatype Stored = Stored(parses: bool, time: nat, utxos: seq<seq<(string, nat)>>)

  /** The delegations of one delegating address and currency. */
  datatype Pair = Pair(readable: bool, hashes: seq<string>)

  datatype Listing = Listing(readable: bool, pairs: seq<Pair>)

  datatype Store = Store(listings: map<string, Listing>, txs: map<string, Stored>)

  datatype Info = Info(dirty: bool, amount: nat, utxos: set<string>, time: nat)

  /** The entry operator[] makes. */
  const FRESH := Info(true, 0, {}, 0)

  /** The virtual address delegations are paid to, and the minimum that qualifies. */
  datatype Rules = Rules(target: string, minimum: nat)

  function ListingOf(s: Store, addr: string): Listing {
    if addr in s.listings then s.listings[addr] else Listing(true, [])
  }

  // ---------- what the store says ----------

  /** The first output of a utxo that pays the target. */
  function Paid(outputs: seq<(string, nat)>, target: string): nat {
    if outputs == [] then 0
    else if outputs[0].0 == target then outputs[0].1
    else Paid(outputs[1..], target)
  }

  function PaidByAll(utxos: seq<seq<(string, nat)>>, target: string): nat {
    if utxos == [] then 0 else PaidByAll(utxos[..|utxos| - 1], target) + Paid(utxos[|utxos| - 1], target)
  }

  function Delegated(s: Store, hash: string, target: string): nat {
    if hash in s.txs then PaidByAll(s.txs[hash].utxos, target) else 0
  }

  /** The delegated total in 64-bit arithmetic. */
  function Total(s: Store, hashes: seq<string>, target: string): nat {
    if hashes == [] then 0
    else (Total(s, hashes[..|hashes| - 1], target) + Delegated(s, hashes[|hashes| - 1], target)) % TWO64
  }

  function Hashes(pairs: seq<Pair>): seq<string> {
    if pairs == [] then [] else Hashes(pairs[..|pairs| - 1]) + pairs[|pairs| - 1].hashes
  }

  predicate Scannable(s: Store, hashes: seq<string>) {
    forall h :: h in hashes ==> h in s.txs && s.txs[h].parses
  }

  /** The running total after transaction k has the minimum. */
  predicate Reaches(s: Store, hashes: seq<string>, r: Rules, k: nat) {
    k < |hashes| && Total(s, hashes[..k + 1], r.target) >= r.minimum
  }

  /** k is the first transaction in scan order whose running total reaches the minimum. */
  ghost predicate FirstToReach(s: Store, hashes: seq<string>, r: Rules, k: nat) {
    Reaches(s, hashes, r, k) && forall j: nat :: j < k ==> !Reaches(s, hashes, r, j)
  }

  // ---------- the scan ----------

  /** code is 0 while the scan goes on; time is set once the minimum is reached. */
  datatype Scan = Scan(code: int, sum: nat, utxos: set<string>, reached: bool, time: nat)

  /** The scan meets a transaction, or a pair it cannot read. */
  datatype Item = Transaction(hash: string) | Unreadable

  function Start(time: nat): Scan {
    Scan(0, 0, {}, false, time)
  }

  function Visit(s: Store, r: Rules, acc: Scan, item: Item): Scan {
    if acc.code != 0 then acc
    else
      match item
      case Unreadable => acc.(code := -2)
      case Transaction(hash) =>
        if hash !in s.txs then acc.(code := -3)
        else if !s.txs[hash].parses then acc.(code := -4, utxos := acc.utxos + {hash})
        else
          var sum := (acc.sum + Delegated(s, hash, r.target)) % TWO64;
          var now := sum >= r.minimum && !acc.reached;
          Scan(0, sum, acc.utxos + {hash}, acc.reached || now, if now then s.txs[hash].time else acc.time)
  }

  function VisitAll(s: Store, r: Rules, time: nat, items: seq<Item>): Scan {
    if items == [] then Start(time) else Visit(s, r, VisitAll(s, r, time, items[..|items| - 1]), items[|items| - 1])
  }

  function Transactions(hashes: seq<string>): seq<Item> {
    seq(|hashes|, i requires 0 <= i < |hashes| => Transaction(hashes[i]))
  }

  function Items(pairs: seq<Pair>): seq<Item> {
    if pairs == [] then []
    else Items(pairs[..|pairs| - 1]) + PairItems(pairs[|pairs| - 1])
  }

  /** What one getAmount call leaves and returns. */
  datatype Answer = Answer(info: Info, code: int, amount: nat)

  predicate FromMemory(info: Info, r: Rules) {
    (if info.dirty then 0 else info.amount) >= r.minimum
  }

  function Ask(s: Store, r: Rules, addr: string, info: Info): Answer {
    var cached := if info.dirty then 0 else info.amount;
    var l := ListingOf(s, addr);
    if FromMemory(info, r) then Answer(info, 0, cached)
    else if !l.readable then Answer(info.(utxos := {}), -1, cached)
    else if l.pairs == [] then Answer(info.(utxos := {}), -2, cached)
    else
      var scan := VisitAll(s, r, info.time, Items(l.pairs));
      if scan.code != 0 then Answer(info.(utxos := scan.utxos, time := scan.time), scan.code, cached)
      else Answer(Info(false, scan.sum, scan.utxos, scan.time), 0, scan.sum)
  }

  // ---------- the scan agrees with the store ----------

  lemma {:induction false} ErrorsStay(s: Store, r: Rules, time: nat, items: seq<Item>)
    requires VisitAll(s, r, time, items).code == 0
    ensures AllTransactions(items)
    ensures forall i :: 0 <= i < |items| ==> items[i].hash in s.txs && s.txs[items[i].hash].parses
  {
    if items != [] {
      var n := |items| - 1;
      ErrorsStay(s, r, time, items[..n]);
      assert forall i :: 0 <= i < n ==> items[i] == items[..n][i];
    }
  }

  predicate AllTransactions(items: seq<Item>) {
    forall i :: 0 <= i < |items| ==> items[i].Transaction?
  }

  lemma {:induction false} BothAreTransactions(a: seq<Item>, b: seq<Item>)
    requires AllTransactions(a + b)
    ensures AllTransactions(a) && AllTransactions(b)
  {
    assert forall i :: 0 <= i < |a| ==> (a + b)[i] == a[i];
    assert forall i :: 0 <= i < |b| ==> (a + b)[|a| + i] == b[i];
  }

  lemma {:induction false} TransactionsConcat(a: seq<string>, b: seq<string>)
    ensures Transactions(a + b) == Transactions(a) + Transactions(b)
  {
  }

  /** What one pair adds to the scan. */
  function PairItems(p: Pair): seq<Item> {
    if p.readable then Transactions(p.hashes) else [Unreadable]
  }

  lemma {:induction false} ReadablePair(p: Pair)
    requires AllTransactions(PairItems(p))
    ensures PairItems(p) == Transactions(p.hashes)
  {
    var items := PairItems(p);
    assert items == [] || items[0].Transaction?;
  }

  lemma {:induction false} ItemsAreTransactions(pairs: seq<Pair>)
    requires AllTransactions(Items(pairs))
    ensures Items(pairs) == Transactions(Hashes(pairs))
  {
    if pairs != [] {
      var n := |pairs| - 1;
      BothAreTransactions(Items(pairs[..n]), PairItems(pairs[n]));
      ItemsAreTransactions(pairs[..n]);
      ReadablePair(pairs[n]);
      TransactionsConcat(Hashes(pairs[..n]), pairs[n].hashes);
    }
  }

  /** The scan has seen exactly these transactions, and remembers when the first of them reached the minimum. */
  ghost predicate ScanIs(scan: Scan, s: Store, hashes: seq<string>, r: Rules) {
    && scan.sum == Total(s, hashes, r.target) && (forall h :: h in scan.utxos <==> h in hashes)
    && (scan.reached <==> exists k: nat :: Reaches(s, hashes, r, k))
    && (forall k: nat :: FirstToReach(s, hashes, r, k) ==> hashes[k] in s.txs && scan.time == s.txs[hashes[k]].time)
  }

  lemma {:induction false} ReachesGrows(s: Store, hashes: seq<string>, r: Rules, k: nat)
    requires hashes != []
    ensures var n := |hashes| - 1;
      Reaches(s, hashes, r, k) <==> Reaches(s, hashes[..n], r, k) || (k == n && Total(s, hashes, r.target) >= r.minimum)
  {
    var n := |hashes| - 1;
    if k < n {
      assert hashes[..n][..k + 1] == hashes[..k + 1];
    }
    assert hashes[..n + 1] == hashes;
  }

  lemma {:induction false} VisitKeepsScan(s: Store, r: Rules, acc: Scan, hashes: seq<string>)
    requires hashes != [] && acc.code == 0 && ScanIs(acc, s, hashes[..|hashes| - 1], r)
    requires hashes[|hashes| - 1] in s.txs && s.txs[hashes[|hashes| - 1]].parses
    ensures ScanIs(Visit(s, r, acc, Transaction(hashes[|hashes| - 1])), s, hashes, r)
  {
    var n := |hashes| - 1;
    var next := Visit(s, r, acc, Transaction(hashes[n]));
    assert hashes == hashes[..n] + [hashes[n]];
    assert next.sum == Total(s, hashes, r.target);
    forall k: nat
      ensures Reaches(s, hashes, r, k) <==> Reaches(s, hashes[..n], r, k) || (k == n && next.sum >= r.minimum)
    {
      ReachesGrows(s, hashes, r, k);
    }
    assert next.reached <==> exists k: nat :: Reaches(s, hashes, r, k) by {
      if acc.reached {
        var k: nat :| Reaches(s, hashes[..n], r, k);
        assert Reaches(s, hashes, r, k);
      }
      assert next.sum >= r.minimum ==> Reaches(s, hashes, r, n);
    }
    forall k: nat | FirstToReach(s, hashes, r, k) ensures next.time == s.txs[hashes[k]].time && hashes[k] in s.txs {
      if k < n {
        assert FirstToReach(s, hashes[..n], r, k);
        assert hashes[..n][k] == hashes[k];
      }
    }
  }

  lemma {:induction false} ScanExact(s: Store, r: Rules, time: nat, hashes: seq<string>)
    requires Scannable(s, hashes)
    ensures VisitAll(s, r, time, Transactions(hashes)).code == 0
    ensures ScanIs(VisitAll(s, r, time, Transactions(hashes)), s, hashes, r)
  {
    if hashes != [] {
      var n := |hashes| - 1;
      assert hashes == hashes[..n] + [hashes[n]];
      ScanExact(s, r, time, hashes[..n]);
      assert Transactions(hashes)[..n] == Transactions(hashes[..n]);
      VisitKeepsScan(s, r, VisitAll(s, r, time, Transactions(hashes[..n])), hashes);
    }
  }

  lemma {:induction false} SuccessfulScan(s: Store, r: Rules, time: nat, pairs: seq<Pair>)
    requires VisitAll(s, r, time, Items(pairs)).code == 0
    ensures Scannable(s, Hashes(pairs)) && ScanIs(VisitAll(s, r, time, Items(pairs)), s, Hashes(pairs), r)
  {
    ErrorsStay(s, r, time, Items(pairs));
    ItemsAreTransactions(pairs);
    var hashes := Hashes(pairs);
    forall h | h in hashes ensures h in s.txs && s.txs[h].parses {
      var i :| 0 <= i < |hashes| && hashes[i] == h;
      assert Items(pairs)[i] == Transaction(h);
    }
    ScanExact(s, r, time, hashes);
  }

  // ---------- what the fold is ----------

  /** A utxo counts with the first of its outputs that pays the target, and with nothing when none does. */
  lemma {:induction false} PaidIsFirst(outputs: seq<(string, nat)>, target: string)
    ensures forall j ::
      0 <= j < |outputs| && outputs[j].0 == target && target !in Payees(outputs[..j]) ==>
        Paid(outputs, target) == outputs[j].1
    ensures (forall j :: 0 <= j < |outputs| ==> outputs[j].0 != target) ==> Paid(outputs, target) == 0
  {
    if outputs != [] && outputs[0].0 != target {
      PaidIsFirst(outputs[1..], target);
      forall j | 0 <= j < |outputs| && outputs[j].0 == target && target !in Payees(outputs[..j])
        ensures Paid(outputs, target) == outputs[j].1
      {
        assert outputs[1..][..j - 1] == outputs[..j][1..];
        assert outputs[j] == outputs[1..][j - 1];
      }
    }
  }

  function Payees(outputs: seq<(string, nat)>): set<string> {
    set i | 0 <= i < |outputs| :: outputs[i].0
  }

  /** A transaction counts with all its utxos. */
  lemma {:induction false} PaidByAllAdds(a: seq<seq<(string, nat)>>, b: seq<seq<(string, nat)>>, target: string)
    ensures PaidByAll(a + b, target) == PaidByAll(a, target) + PaidByAll(b, target)
    ensures |b| == 1 ==> PaidByAll(b, target) == Paid(b[0], target)
  {
    if b == [] {
      assert a + b == a;
    } else {
      var n := |b| - 1;
      PaidByAllAdds(a, b[..n], target);
      assert (a + b)[..|a + b| - 1] == a + b[..n];
    }
  }

  lemma {:induction false} ModAdds(a: nat, b: nat, d: nat)
    ensures ((a + b) % TWO64 + d) % TWO64 == (a + (b + d) % TWO64) % TWO64
  {
    var q, r := (a + b) / TWO64, (b + d) / TWO64;
    assert (a + b) % TWO64 + d == a + b + d - q * TWO64;
    assert a + (b + d) % TWO64 == a + b + d - r * TWO64;
    SameRemainder((a + b) % TWO64 + d, a + (b + d) % TWO64, r - q);
  }

  lemma {:induction false} SameRemainder(x: nat, y: nat, k: int)
    requires x == y + k * TWO64
    ensures x % TWO64 == y % TWO64
  {
    var q := y / TWO64;
    assert x == (q + k) * TWO64 + y % TWO64;
  }

  lemma {:induction false} TotalNext(s: Store, a: seq<string>, b: seq<string>, target: string)
    requires b != []
    ensures var init, last := b[..|b| - 1], b[|b| - 1];
      Total(s, a + b, target) == (Total(s, a + init, target) + Delegated(s, last, target)) % TWO64
  {
    assert (a + b)[..|a + b| - 1] == a + b[..|b| - 1];
  }

  lemma {:induction false} TotalLast(s: Store, b: seq<string>, target: string)
    requires b != []
    ensures Total(s, b, target) == (Total(s, b[..|b| - 1], target) + Delegated(s, b[|b| - 1], target)) % TWO64
  {
  }

  lemma {:induction false} TotalAddsNext(s: Store, a: seq<string>, b: seq<string>, target: string, x: nat, y: nat)
    requires b != [] && x == Total(s, a, target) && y == Total(s, b[..|b| - 1], target)
    requires Total(s, a + b[..|b| - 1], target) == (x + y) % TWO64
    ensures Total(s, a + b, target) == (x + Total(s, b, target)) % TWO64
  {
    TotalNext(s, a, b, target);
    TotalLast(s, b, target);
    ModAdds(x, y, Delegated(s, b[|b| - 1], target));
  }

  /** The total of the stored delegations, in 64-bit arithmetic, over any way to divide them. */
  lemma {:induction false} TotalAdds(s: Store, a: seq<string>, b: seq<string>, target: string)
    ensures Total(s, a + b, target) == (Total(s, a, target) + Total(s, b, target)) % TWO64
  {
    if b == [] {
      assert a + b == a;
      TotalIsSmall(s, a, target);
    } else {
      var n := |b| - 1;
      TotalAdds(s, a, b[..n], target);
      TotalAddsNext(s, a, b, target, Total(s, a, target), Total(s, b[..n], target));
    }
  }

  lemma {:induction false} TotalOfOne(s: Store, hash: string, target: string)
    requires hash in s.txs
    ensures Total(s, [hash], target) == PaidByAll(s.txs[hash].utxos, target) % TWO64
  {
    assert [hash][..0] == [];
  }

  lemma {:induction false} TotalIsSmall(s: Store, hashes: seq<string>, target: string)
    ensures Total(s, hashes, target) < TWO64
  {
  }

  /** The pairs are scanned one after the other, each from its first transaction to its last. */
  lemma {:induction false} HashesAdd(a: seq<Pair>, b: seq<Pair>)
    ensures Hashes(a + b) == Hashes(a) + Hashes(b)
    ensures |b| == 1 ==> Hashes(b) == b[0].hashes
  {
    if b == [] {
      assert a + b == a;
    } else {
      var n := |b| - 1;
      HashesAdd(a, b[..n]);
      assert (a + b)[..|a + b| - 1] == a + b[..n];
    }
  }

  /** What the scan stops at, and with which code. */
  predicate Bad(s: Store, item: Item) {
    item.Unreadable? || item.hash !in s.txs || !s.txs[item.hash].parses
  }

  function BadCode(s: Store, item: Item): int {
    if item.Unreadable? then -2 else if item.hash !in s.txs then -3 else -4
  }

  ghost predicate FirstBad(s: Store, items: seq<Item>, k: nat) {
    k < |items| && Bad(s, items[k]) && forall j :: 0 <= j < k ==> !Bad(s, items[j])
  }

  lemma {:induction false} ScanCodeMeans(s: Store, r: Rules, time: nat, items: seq<Item>)
    ensures forall k: nat :: FirstBad(s, items, k) ==> VisitAll(s, r, time, items).code == BadCode(s, items[k])
    ensures (forall k :: 0 <= k < |items| ==> !Bad(s, items[k])) ==> VisitAll(s, r, time, items).code == 0
  {
    if items != [] {
      var n := |items| - 1;
      ScanCodeMeans(s, r, time, items[..n]);
      forall k: nat | FirstBad(s, items, k) ensures VisitAll(s, r, time, items).code == BadCode(s, items[k]) {
        if k < n { assert FirstBad(s, items[..n], k); }
      }
    }
  }

  /** A call that fails leaves the entry's amount and mark, and answers the cached amount. */
  lemma {:induction false} FailureKeeps(s: Store, r: Rules, addr: string, info: Info)
    requires Ask(s, r, addr, info).code != 0
    ensures var a := Ask(s, r, addr, info);
      && a.info.dirty == info.dirty && a.info.amount == info.amount
      && a.amount == (if info.dirty then 0 else info.amount) < r.minimum
  {
  }

  /** It names its reason: the listing cannot be read, it is empty, or the scan meets first a pair that cannot be
      read, a transaction that is missing, or one that does not parse. */
  lemma {:induction false} FailureMeans(s: Store, r: Rules, addr: string, info: Info, k: nat)
    requires Ask(s, r, addr, info).code != 0
    ensures var code, l := Ask(s, r, addr, info).code, ListingOf(s, addr);
      && (code == -1 <==> !l.readable)
      && (l.readable && l.pairs == [] ==> code == -2)
      && (l.readable && FirstBad(s, Items(l.pairs), k) ==> code == BadCode(s, Items(l.pairs)[k]))
  {
    var items := Items(ListingOf(s, addr).pairs);
    ScanCodeMeans(s, r, info.time, items);
    if FirstBad(s, items, k) { assert VisitAll(s, r, info.time, items).code == BadCode(s, items[k]); }
    if forall i :: 0 <= i < |items| ==> !Bad(s, items[i]) {
      assert VisitAll(s, r, info.time, items).code == 0;
    } else {
      var i := SomeFirstBad(s, items);
      assert VisitAll(s, r, info.time, items).code == BadCode(s, items[i]);
    }
  }

  lemma {:induction false} SomeFirstBad(s: Store, items: seq<Item>) returns (k: nat)
    requires exists i :: 0 <= i < |items| && Bad(s, items[i])
    ensures FirstBad(s, items, k)
  {
    var i :| 0 <= i < |items| && Bad(s, items[i]);
    if j :| 0 <= j < i && Bad(s, items[j]) {
      assert items[..i][j] == items[j];
      k := SomeFirstBad(s, items[..i]);
    } else {
      k := i;
    }
  }

  // ---------- coherence over runs ----------

  function HashesOf(s: Store, addr: string): seq<string> {
    Hashes(ListingOf(s, addr).pairs)
  }

  /** A clean entry holds the store's total, and once that has the minimum also its transactions and the
      time of the first one that reaches it. */
  ghost predicate Coherent(s: Store, r: Rules, addr: string, info: Info) {
    !info.dirty ==>
      var hashes := HashesOf(s, addr);
      && Scannable(s, hashes) && info.amount == Total(s, hashes, r.target)
      && (info.amount >= r.minimum ==>
           && (forall h :: h in info.utxos <==> h in hashes)
           && exists k: nat :: FirstToReach(s, hashes, r, k) && info.time == s.txs[hashes[k]].time)
  }

  lemma {:induction false} FirstExists(s: Store, hashes: seq<string>, r: Rules, k: nat) returns (first: nat)
    requires Reaches(s, hashes, r, k)
    ensures FirstToReach(s, hashes, r, first)
  {
    if forall j: nat :: j < k ==> !Reaches(s, hashes, r, j) {
      first := k;
    } else {
      var j: nat :| j < k && Reaches(s, hashes, r, j);
      first := FirstExists(s, hashes, r, j);
    }
  }

  /** The final total is the running total after the last transaction. */
  lemma {:induction false} TotalReaches(s: Store, hashes: seq<string>, r: Rules)
    requires Total(s, hashes, r.target) >= r.minimum > 0
    ensures hashes != [] && Reaches(s, hashes, r, |hashes| - 1)
  {
    assert hashes[..|hashes|] == hashes;
  }

  /** The call scans the store and succeeds. */
  predicate Rescans(s: Store, r: Rules, addr: string, info: Info) {
    !FromMemory(info, r) && Ask(s, r, addr, info).code == 0
  }

  /** A successful scan makes any entry coherent and answers with the store's total. */
  lemma {:induction false} RescanIsExact(s: Store, r: Rules, addr: string, info: Info)
    requires Rescans(s, r, addr, info) && r.minimum > 0
    ensures var a := Ask(s, r, addr, info);
      && Coherent(s, r, addr, a.info) && !a.info.dirty
      && a.amount == a.info.amount == Total(s, HashesOf(s, addr), r.target)
  {
    var pairs, hashes := ListingOf(s, addr).pairs, HashesOf(s, addr);
    var scan := VisitAll(s, r, info.time, Items(pairs));
    SuccessfulScan(s, r, info.time, pairs);
    if scan.sum >= r.minimum {
      TotalReaches(s, hashes, r);
      var first := FirstExists(s, hashes, r, |hashes| - 1);
    }
  }

  /** A successful answer from a coherent entry is the store's total, and the entry stays coherent in any case. */
  lemma {:induction false} AskIsExact(s: Store, r: Rules, addr: string, info: Info)
    requires Coherent(s, r, addr, info) && r.minimum > 0
    ensures var a := Ask(s, r, addr, info);
      && Coherent(s, r, addr, a.info)
      && (a.code == 0 ==> !a.info.dirty && a.amount == a.info.amount == Total(s, HashesOf(s, addr), r.target))
  {
    if Rescans(s, r, addr, info) {
      RescanIsExact(s, r, addr, info);
    }
  }

  datatype State = State(store: Store, cache: map<string, Info>, unmarked: set<string>)

  datatype Op = ChangeStore(next: Store) | IsDirty(addr: string, dirty: bool) | GetAmount(addr: string)

  function InfoOf(m: map<string, Info>, addr: string): Info {
    if addr in m then m[addr] else FRESH
  }

  /** The two stores show an address the same delegations. */
  ghost predicate SameView(s: Store, t: Store, addr: string) {
    && ListingOf(s, addr) == ListingOf(t, addr)
    && forall h :: h in HashesOf(s, addr) ==> (h in s.txs <==> h in t.txs) && (h in s.txs ==> s.txs[h] == t.txs[h])
  }

  /** unmarked: cached addresses whose delegations changed, or whose mark was taken away, and that were
      neither marked dirty nor scanned since. Calls come in any order. */
  ghost function Step(s: State, r: Rules, op: Op): State {
    match op
    case ChangeStore(next) => State(next, s.cache, s.unmarked + set a | a in s.cache && !SameView(s.store, next, a))
    case IsDirty(addr, dirty) =>
      s.(cache := s.cache[addr := InfoOf(s.cache, addr).(dirty := dirty)],
         unmarked := if dirty then s.unmarked - {addr}
                     else if InfoOf(s.cache, addr).dirty then s.unmarked + {addr} else s.unmarked)
    case GetAmount(addr) =>
      var info := InfoOf(s.cache, addr);
      s.(cache := s.cache[addr := Ask(s.store, r, addr, info).info],
         unmarked := if Rescans(s.store, r, addr, info) then s.unmarked - {addr} else s.unmarked)
  }

  ghost function Run(initial: Store, r: Rules, ops: seq<Op>): State {
    if ops == [] then State(initial, map[], {}) else Step(Run(initial, r, ops[..|ops| - 1]), r, ops[|ops| - 1])
  }

  ghost predicate Inv(s: State, r: Rules) {
    forall a :: a in s.cache && a !in s.unmarked ==> Coherent(s.store, r, a, s.cache[a])
  }

  lemma {:induction false} SameTotal(s: Store, t: Store, hashes: seq<string>, target: string)
    requires forall h :: h in hashes ==> h in s.txs && h in t.txs && s.txs[h] == t.txs[h]
    ensures Total(s, hashes, target) == Total(t, hashes, target)
  {
    if hashes != [] {
      var n := |hashes| - 1;
      assert hashes == hashes[..n] + [hashes[n]];
      SameTotal(s, t, hashes[..n], target);
    }
  }

  lemma {:induction false} SameReaches(s: Store, t: Store, hashes: seq<string>, r: Rules, k: nat)
    requires forall h :: h in hashes ==> h in s.txs && h in t.txs && s.txs[h] == t.txs[h]
    ensures Reaches(s, hashes, r, k) <==> Reaches(t, hashes, r, k)
  {
    if k < |hashes| {
      assert forall h :: h in hashes[..k + 1] ==> h in hashes;
      SameTotal(s, t, hashes[..k + 1], r.target);
    }
  }

  lemma {:induction false} SameViewKeepsCoherent(s: Store, t: Store, r: Rules, addr: string, info: Info)
    requires SameView(s, t, addr) && Coherent(s, r, addr, info)
    ensures Coherent(t, r, addr, info)
  {
    if !info.dirty {
      var hashes := HashesOf(s, addr);
      SameTotal(s, t, hashes, r.target);
      if info.amount >= r.minimum {
        var k: nat :| FirstToReach(s, hashes, r, k) && info.time == s.txs[hashes[k]].time;
        forall j: nat ensures Reaches(s, hashes, r, j) <==> Reaches(t, hashes, r, j) {
          SameReaches(s, t, hashes, r, j);
        }
        assert FirstToReach(t, hashes, r, k);
      }
    }
  }

  lemma {:induction false} AskKeepsInv(s: State, r: Rules, addr: string)
    requires Inv(s, r) && r.minimum > 0
    ensures Inv(Step(s, r, GetAmount(addr)), r)
  {
    var next, info := Step(s, r, GetAmount(addr)), InfoOf(s.cache, addr);
    forall a | a in next.cache && a !in next.unmarked ensures Coherent(next.store, r, a, next.cache[a]) {
      if a != addr {
        assert next.cache[a] == s.cache[a];
      } else if Rescans(s.store, r, addr, info) {
        RescanIsExact(s.store, r, addr, info);
      } else {
        AskIsExact(s.store, r, addr, info);
      }
    }
  }

  lemma {:induction false} StepKeepsInv(s: State, r: Rules, op: Op)
    requires Inv(s, r) && r.minimum > 0
    ensures Inv(Step(s, r, op), r)
  {
    var next := Step(s, r, op);
    match op
    case ChangeStore(store) =>
      forall a | a in next.cache && a !in next.unmarked ensures Coherent(next.store, r, a, next.cache[a]) {
        SameViewKeepsCoherent(s.store, store, r, a, s.cache[a]);
      }
    case IsDirty(addr, dirty) =>
      forall a | a in next.cache && a !in next.unmarked ensures Coherent(next.store, r, a, next.cache[a]) {
        assert a == addr || next.cache[a] == s.cache[a];
      }
    case GetAmount(addr) => AskKeepsInv(s, r, addr);
  }

  lemma {:induction false} RunKeepsInv(initial: Store, r: Rules, ops: seq<Op>)
    requires r.minimum > 0
    ensures Inv(Run(initial, r, ops), r)
  {
    if ops != [] {
      RunKeepsInv(initial, r, ops[..|ops| - 1]);
      StepKeepsInv(Run(initial, r, ops[..|ops| - 1]), r, ops[|ops| - 1]);
    }
  }

  /** In every run, for an address that awaits no mark, a successful getAmount is the fold over the store's
      delegations, and with the minimum reached the entry carries the time of the first transaction that
      reaches it. */
  lemma {:induction false} AnswersAreExact(initial: Store, r: Rules, ops: seq<Op>, addr: string)
    requires r.minimum > 0 && addr !in Run(initial, r, ops).unmarked
    ensures var s := Run(initial, r, ops);
      var a := Ask(s.store, r, addr, InfoOf(s.cache, addr));
      var hashes := HashesOf(s.store, addr);
      a.code == 0 ==>
        && a.amount == Total(s.store, hashes, r.target)
        && (a.amount >= r.minimum ==>
             exists k: nat :: FirstToReach(s.store, hashes, r, k) && hashes[k] in s.store.txs
               && a.info.time == s.store.txs[hashes[k]].time)
  {
    var s := Run(initial, r, ops);
    RunKeepsInv(initial, r, ops);
    AskIsExact(s.store, r, addr, InfoOf(s.cache, addr));
    var a := Ask(s.store, r, addr, InfoOf(s.cache, addr));
    assert Coherent(s.store, r, addr, a.info);
  }

  /** A change that was not marked is seen if and only if the entry is dirty or below the minimum, or the
      total did not change. */
  lemma {:induction false} UnmarkedChangeSeenIff(s: Store, t: Store, r: Rules, addr: string, info: Info)
    requires Coherent(s, r, addr, info) && r.minimum > 0 && Ask(t, r, addr, info).code == 0
    ensures Ask(t, r, addr, info).amount == Total(t, HashesOf(t, addr), r.target)
       <==> info.dirty || info.amount < r.minimum
            || Total(s, HashesOf(s, addr), r.target) == Total(t, HashesOf(t, addr), r.target)
  {
    if Rescans(t, r, addr, info) {
      RescanIsExact(t, r, addr, info);
    }
  }

  /** An address with one delegation, and the same address after it was withdrawn. */
  function OneDelegation(addr: string, amount: nat): Store {
    Store(map[addr := Listing(true, [Pair(true, ["h"])])], map["h" := Stored(true, 7, [[("target", amount)]])])
  }

  lemma {:induction false} OneDelegationTotal(addr: string, amount: nat)
    requires amount < TWO64
    ensures var s := OneDelegation(addr, amount);
      HashesOf(s, addr) == ["h"] && Total(s, ["h"], "target") == amount
  {
    var s := OneDelegation(addr, amount);
    var pairs := [Pair(true, ["h"])];
    assert pairs[..0] == [] && Hashes(pairs) == Hashes([]) + ["h"];
    var utxos := [[("target", amount)]];
    assert utxos[..0] == [] && PaidByAll(utxos, "target") == Paid(utxos[0], "target");
    assert ["h"][..0] == [];
  }

  /** A change that is not marked goes unseen: after one answer the delegation is withdrawn, the total is
      zero, and the next answer is still the old amount. */
  lemma {:induction false} UnmarkedChangeGoesUnseen(addr: string, amount: nat)
    requires 0 < amount < TWO64
    ensures var r := Rules("target", amount); var empty := Store(map[], map[]);
      var s := Run(OneDelegation(addr, amount), r, [GetAmount(addr), ChangeStore(empty)]);
      && addr in s.unmarked && Total(s.store, HashesOf(s.store, addr), r.target) == 0
      && Ask(s.store, r, addr, InfoOf(s.cache, addr)).code == 0
      && Ask(s.store, r, addr, InfoOf(s.cache, addr)).amount == amount
  {
    var r, empty := Rules("target", amount), Store(map[], map[]);
    var ops := [GetAmount(addr), ChangeStore(Store(map[], map[]))];
    var first := OneDelegation(addr, amount);
    OneDelegationTotal(addr, amount);
    assert ops[..1] == [GetAmount(addr)] && ops[..1][..0] == [];
    assert Run(first, r, ops[..1]) == Step(State(first, map[], {}), r, GetAmount(addr));
    var items := Items([Pair(true, ["h"])]);
    assert [Pair(true, ["h"])][..0] == [] && items == Transactions(["h"]);
    ScanExact(first, r, 0, ["h"]);
    assert Rescans(first, r, addr, FRESH);
    RescanIsExact(first, r, addr, FRESH);
    assert Run(first, r, ops) == Step(Run(first, r, ops[..1]), r, ChangeStore(empty));
    assert ListingOf(first, addr) != ListingOf(empty, addr);
  }

  // ---------- the program ----------

  method SumOutputs(s: Stored, target: string) returns (sum: nat)
    ensures sum == PaidByAll(s.utxos, target)
  {
    sum := 0;
    for i := 0 to |s.utxos|
      invariant sum == PaidByAll(s.utxos[..i], target)
    {
      assert s.utxos[..i + 1][..i] == s.utxos[..i];
      var v := FirstPaid(s.utxos[i], target);
      sum := sum + v;
    }
    assert s.utxos[..|s.utxos|] == s.utxos;
  }

  method FirstPaid(outputs: seq<(string, nat)>, target: string) returns (v: nat)
    ensures v == Paid(outputs, target)
  {
    v := 0;
    for i := 0 to |outputs|
      invariant Paid(outputs, target) == Paid(outputs[i..], target)
    {
      if outputs[i].0 == target {
        return outputs[i].1;
      }
    }
  }

  lemma {:induction false} VisitNext(s: Store, r: Rules, time: nat, done: seq<Item>, hashes: seq<string>, j: nat)
    requires j < |hashes|
    ensures VisitAll(s, r, time, done + Transactions(hashes[..j + 1]))
         == Visit(s, r, VisitAll(s, r, time, done + Transactions(hashes[..j])), Transaction(hashes[j]))
  {
    var before := done + Transactions(hashes[..j]);
    assert done + Transactions(hashes[..j + 1]) == before + [Transaction(hashes[j])];
    assert (before + [Transaction(hashes[j])])[..|before|] == before;
  }

  /** After an error nothing more is visited. */
  lemma {:induction false} ErrorEnds(s: Store, r: Rules, time: nat, items: seq<Item>, more: seq<Item>)
    requires VisitAll(s, r, time, items).code != 0
    ensures VisitAll(s, r, time, items + more) == VisitAll(s, r, time, items)
  {
    if more == [] {
      assert items + more == items;
    } else {
      var n := |more| - 1;
      ErrorEnds(s, r, time, items, more[..n]);
      assert (items + more)[..|items + more| - 1] == items + more[..n];
    }
  }

  lemma {:induction false} ItemsSplit(pairs: seq<Pair>, i: nat)
    requires i < |pairs|
    ensures Items(pairs[..i + 1]) == Items(pairs[..i]) + PairItems(pairs[i])
  {
    assert pairs[..i + 1][..i] == pairs[..i];
  }

  lemma {:induction false} ErrorEndsPairs(s: Store, r: Rules, time: nat, pairs: seq<Pair>, i: nat)
    requires i <= |pairs| && VisitAll(s, r, time, Items(pairs[..i])).code != 0
    ensures VisitAll(s, r, time, Items(pairs)) == VisitAll(s, r, time, Items(pairs[..i]))
    decreases |pairs| - i
  {
    if i == |pairs| {
      assert pairs[..i] == pairs;
    } else {
      ItemsSplit(pairs, i);
      ErrorEnds(s, r, time, Items(pairs[..i]), PairItems(pairs[i]));
      ErrorEndsPairs(s, r, time, pairs, i + 1);
    }
  }

  lemma {:induction false} ErrorEndsPair(s: Store, r: Rules, time: nat, done: seq<Item>, hashes: seq<string>, j: nat)
    requires j < |hashes| && VisitAll(s, r, time, done + Transactions(hashes[..j + 1])).code != 0
    ensures VisitAll(s, r, time, done + Transactions(hashes))
        == VisitAll(s, r, time, done + Transactions(hashes[..j + 1]))
  {
    ErrorEnds(s, r, time, done + Transactions(hashes[..j + 1]), Transactions(hashes[j + 1..]));
    assert done + Transactions(hashes) == done + Transactions(hashes[..j + 1]) + Transactions(hashes[j + 1..]);
  }

  /** One pair; done lists what was visited before. */
  method ScanPair(s: Store, r: Rules, ghost time: nat, ghost done: seq<Item>, before: Scan, hashes: seq<string>)
    returns (scan: Scan)
    requires before == VisitAll(s, r, time, done) && before.code == 0
    ensures scan == VisitAll(s, r, time, done + Transactions(hashes))
  {
    scan := before;
    assert done + Transactions(hashes[..0]) == done;
    for j := 0 to |hashes|
      invariant scan == VisitAll(s, r, time, done + Transactions(hashes[..j])) && scan.code == 0
    {
      VisitNext(s, r, time, done, hashes, j);
      scan := ScanTransaction(s, r, scan, hashes[j]);
      if scan.code != 0 {
        ErrorEndsPair(s, r, time, done, hashes, j);
        return;
      }
    }
    assert hashes[..|hashes|] == hashes;
  }

  method ScanTransaction(s: Store, r: Rules, before: Scan, hash: string) returns (scan: Scan)
    requires before.code == 0
    ensures scan == Visit(s, r, before, Transaction(hash))
  {
    scan := before;
    if hash !in s.txs {
      return scan.(code := -3);
    }
    scan := scan.(utxos := scan.utxos + {hash});
    if !s.txs[hash].parses {
      return scan.(code := -4);
    }
    var paid := SumOutputs(s.txs[hash], r.target);
    scan := scan.(sum := (scan.sum + paid) % TWO64);
    if scan.sum >= r.minimum && !scan.reached {
      scan := scan.(time := s.txs[hash].time, reached := true);
    }
  }

  lemma {:induction false} VisitUnreadable(s: Store, r: Rules, time: nat, done: seq<Item>)
    ensures VisitAll(s, r, time, done + [Unreadable]) == Visit(s, r, VisitAll(s, r, time, done), Unreadable)
  {
    assert (done + [Unreadable])[..|done|] == done;
  }

  method ScanPairs(s: Store, r: Rules, time: nat, pairs: seq<Pair>) returns (scan: Scan)
    ensures scan == VisitAll(s, r, time, Items(pairs))
  {
    scan := Start(time);
    for i := 0 to |pairs|
      invariant scan == VisitAll(s, r, time, Items(pairs[..i])) && scan.code == 0
    {
      ItemsSplit(pairs, i);
      if pairs[i].readable {
        scan := ScanPair(s, r, time, Items(pairs[..i]), scan, pairs[i].hashes);
      } else {
        VisitUnreadable(s, r, time, Items(pairs[..i]));
        scan := scan.(code := -2);
      }
      if scan.code != 0 {
        ErrorEndsPairs(s, r, time, pairs, i + 1);
        return;
      }
    }
    assert pairs[..|pairs|] == pairs;
  }

  /** The entry below the minimum is scanned again; an error leaves its amount and its mark alone. */
  method Refresh(s: Store, r: Rules, addr: string, before: Info, cached: nat)
    returns (code: int, amount: nat, info: Info)
    requires !FromMemory(before, r) && cached == (if before.dirty then 0 else before.amount)
    ensures Ask(s, r, addr, before) == Answer(info, code, amount)
  {
    amount := cached;
    info := before.(utxos := {});
    var listing := ListingOf(s, addr);
    if !listing.readable {
      return -1, amount, info;
    }
    if listing.pairs == [] {
      return -2, amount, info;
    }
    var scan := ScanPairs(s, r, info.time, listing.pairs);
    info := info.(utxos := scan.utxos, time := scan.time);
    if scan.code != 0 {
      return scan.code, amount, info;
    }
    info := info.(amount := scan.sum, dirty := false);
    return 0, scan.sum, info;
  }

  class BonusAddrCache {
    var bonusAddrMap: map<string, Info>
    const rules: Rules

    constructor (rules: Rules)
      ensures bonusAddrMap == map[] && this.rules == rules
    {
      bonusAddrMap := map[];
      this.rules := rules;
    }

    method GetAmount(s: Store, bonusAddr: string) returns (code: int, amount: nat)
      modifies this
      ensures var a := Ask(s, rules, bonusAddr, InfoOf(old(bonusAddrMap), bonusAddr));
        code == a.code && amount == a.amount && bonusAddrMap == old(bonusAddrMap)[bonusAddr := a.info]
    {
      amount := 0;
      var info := if bonusAddr in bonusAddrMap then bonusAddrMap[bonusAddr] else FRESH;
      if !info.dirty {
        amount := info.amount;
      }
      if amount >= rules.minimum {
        code := 0;
      } else {
        code, amount, info := Refresh(s, rules, bonusAddr, info, amount);
      }
      bonusAddrMap := bonusAddrMap[bonusAddr := info];
    }

    method GetTime(bonusAddr: string) returns (time: nat)
      ensures time == InfoOf(bonusAddrMap, bonusAddr).time
    {
      time := if bonusAddr in bonusAddrMap then bonusAddrMap[bonusAddr].time else 0;
    }

    method IsDirty(bonusAddr: string, dirty: bool)
      modifies this
      ensures bonusAddrMap == old(bonusAddrMap)[bonusAddr := InfoOf(old(bonusAddrMap), bonusAddr).(dirty := dirty)]
    {
      if bonusAddr !in bonusAddrMap {
        bonusAddrMap := bonusAddrMap[bonusAddr := FRESH];
      }
      bonusAddrMap := bonusAddrMap[bonusAddr := bonusAddrMap[bonusAddr].(dirty := dirty)];
    }
  }
}
