/** The height of the next block (ca/transaction_cache.cpp, get_build_block_height): the highest
    reported height that three quarters of the counted nodes have reached. */
module BuildHeight {
  import Orders

  /** A peer; qualified says that it staked and its bonus address checks out. */
  datatype Node = Node(address: string, height: nat, qualified: bool)

  const TWO31 := 0x8000_0000
  const TWO32 := 0x1_0000_0000
  const TWO64 := 0x1_0000_0000_0000_0000

  /** A height stored in, or returned as, a signed 32-bit number. */
  function ToInt(h: nat): int {
    (h + TWO31) % TWO32 - TWO31
  }

  /** A signed number compared with an unsigned 64-bit one. */
  function Widen(m: int): nat {
    m % TWO64
  }

  /** The greatest height as the program keeps it. */
  function MaxInt(heights: seq<nat>): int {
    if heights == [] then 0
    else
      var m := MaxInt(heights[..|heights| - 1]);
      if Widen(m) < heights[|heights| - 1] then ToInt(heights[|heights| - 1]) else m
  }

  function MaxOf(heights: seq<nat>): (m: nat)
    ensures m == 0 || m in heights
    ensures forall h :: h in heights ==> h <= m
  {
    if heights == [] then 0
    else
      var m := MaxOf(heights[..|heights| - 1]);
      assert heights == heights[..|heights| - 1] + [heights[|heights| - 1]];
      if m < heights[|heights| - 1] then heights[|heights| - 1] else m
  }

  /** Both conversions keep the number up to a multiple of the width, and bring it into range. */
  lemma {:induction false} ConversionsWrap(h: nat, m: int)
    ensures -TWO31 <= ToInt(h) < TWO31 && (ToInt(h) - h) % TWO32 == 0
    ensures Widen(m) < TWO64 && (Widen(m) - m) % TWO64 == 0
  {
    assert ToInt(h) - h == -((h + TWO31) / TWO32) * TWO32;
    assert Widen(m) - m == -(m / TWO64) * TWO64;
  }

  lemma {:induction false} MaxIntInRange(heights: seq<nat>)
    ensures -TWO31 <= MaxInt(heights) < TWO31
  {
    if heights != [] {
      MaxIntInRange(heights[..|heights| - 1]);
    }
  }

  /** The number kept is the greatest height if and only if that fits in 31 bits. */
  lemma {:induction false} MaxIntExactIff(heights: seq<nat>)
    ensures MaxInt(heights) == MaxOf(heights) <==> MaxOf(heights) < TWO31
  {
    MaxIntInRange(heights);
    if heights != [] && MaxOf(heights) < TWO31 {
      assert MaxOf(heights[..|heights| - 1]) <= MaxOf(heights);
      MaxIntExactIff(heights[..|heights| - 1]);
    }
  }

  /** Address to height of the qualified peers; a repeated address keeps the last report. */
  function Qualified(nodes: seq<Node>): map<string, nat> {
    if nodes == [] then map[]
    else
      var before, n := Qualified(nodes[..|nodes| - 1]), nodes[|nodes| - 1];
      if n.qualified then before[n.address := n.height] else before
  }

  /** The i-th peer gives the last qualified report of an address. */
  ghost predicate LastReport(nodes: seq<Node>, a: string, i: nat) {
    && i < |nodes| && nodes[i].qualified && nodes[i].address == a
    && forall j :: i < j < |nodes| ==> !(nodes[j].qualified && nodes[j].address == a)
  }

  /** The i-th peer gives the first report of an address. */
  ghost predicate FirstReport(nodes: seq<Node>, a: string, i: nat) {
    && i < |nodes| && nodes[i].address == a
    && forall j :: 0 <= j < i ==> nodes[j].address != a
  }

  lemma {:induction false} LastReportGrows(nodes: seq<Node>, a: string, i: nat)
    requires nodes != []
    ensures var n := |nodes| - 1; var last := nodes[n];
      LastReport(nodes, a, i) <==>
        if last.qualified && last.address == a then i == n else LastReport(nodes[..n], a, i)
  {
  }

  lemma {:induction false} QualifiedIsLast(nodes: seq<Node>, a: string)
    ensures a in Qualified(nodes) <==> exists i: nat :: LastReport(nodes, a, i)
    ensures forall i: nat :: LastReport(nodes, a, i) ==> a in Qualified(nodes) && Qualified(nodes)[a] == nodes[i].height
  {
    if nodes != [] {
      var n := |nodes| - 1;
      QualifiedIsLast(nodes[..n], a);
      forall i: nat ensures LastReport(nodes, a, i) <==>
        if nodes[n].qualified && nodes[n].address == a then i == n else LastReport(nodes[..n], a, i)
      {
        LastReportGrows(nodes, a, i);
      }
      assert nodes[n].qualified && nodes[n].address == a ==> LastReport(nodes, a, n);
      if i: nat :| LastReport(nodes[..n], a, i) {
        assert LastReport(nodes, a, i) || LastReport(nodes, a, n);
      }
    }
  }

  lemma {:induction false} FirstReportGrows(nodes: seq<Node>, a: string, i: nat)
    requires nodes != []
    ensures var n := |nodes| - 1;
      FirstReport(nodes, a, i) <==>
        FirstReport(nodes[..n], a, i)
          || (i == n && nodes[n].address == a && forall k: nat :: !FirstReport(nodes[..n], a, k))
  {
    var n := |nodes| - 1;
    if i == n && nodes[n].address == a && forall k: nat :: !FirstReport(nodes[..n], a, k) {
      NoFirstReport(nodes[..n], a, n);
    }
  }

  lemma {:induction false} NoFirstReport(nodes: seq<Node>, a: string, n: nat)
    requires n <= |nodes| && forall k: nat :: !FirstReport(nodes, a, k)
    ensures forall j :: 0 <= j < n ==> nodes[j].address != a
  {
    if n > 0 {
      NoFirstReport(nodes, a, n - 1);
      assert !FirstReport(nodes, a, n - 1);
    }
  }

  lemma {:induction false} WithAllIsFirst(sat: map<string, nat>, nodes: seq<Node>, a: string)
    ensures a in sat ==> a in WithAll(sat, nodes) && WithAll(sat, nodes)[a] == sat[a]
    ensures a !in sat ==> (a in WithAll(sat, nodes) <==> exists i: nat :: FirstReport(nodes, a, i))
    ensures a !in sat ==> forall i: nat ::
        FirstReport(nodes, a, i) ==> a in WithAll(sat, nodes) && WithAll(sat, nodes)[a] == nodes[i].height
  {
    if nodes != [] {
      var n := |nodes| - 1;
      WithAllIsFirst(sat, nodes[..n], a);
      forall i: nat ensures FirstReport(nodes, a, i) <==>
        FirstReport(nodes[..n], a, i)
          || (i == n && nodes[n].address == a && forall k: nat :: !FirstReport(nodes[..n], a, k))
      {
        FirstReportGrows(nodes, a, i);
      }
      if i: nat :| FirstReport(nodes[..n], a, i) {
        assert FirstReport(nodes, a, i);
      } else {
        assert nodes[n].address == a ==> FirstReport(nodes, a, n);
      }
    }
  }

  /** The fallback adds every peer not yet present; a repeated address keeps the first report. */
  function WithAll(sat: map<string, nat>, nodes: seq<Node>): map<string, nat> {
    if nodes == [] then sat
    else
      var before, n := WithAll(sat, nodes[..|nodes| - 1]), nodes[|nodes| - 1];
      if n.address in before then before else before[n.address := n.height]
  }

  /** The counted nodes, or none when too few qualify and the fallback is not open. */
  function Counted(nodes: seq<Node>, maxUtxo: nat, minQual: nat, minUnstake: nat): map<string, nat> {
    var q := Qualified(nodes);
    if |q| < minQual && maxUtxo < minUnstake then WithAll(q, nodes) else q
  }

  function AtLeast(sat: map<string, nat>, h: nat): set<string> {
    set a | a in sat && sat[a] >= h
  }

  predicate Reported(sat: map<string, nat>, h: nat) {
    exists a :: a in sat && sat[a] == h
  }

  /** At least three quarters of the counted nodes are at or above h. */
  predicate Quorum(sat: map<string, nat>, h: nat) {
    4 * |AtLeast(sat, h)| >= 3 * |sat|
  }

  /** The counts by height, as the reverse walk accumulates them. */
  ghost predicate IsCumulative(count: map<nat, nat>, sat: map<string, nat>) {
    && (forall h :: h in count <==> Reported(sat, h))
    && (forall h :: h in count ==> count[h] == |AtLeast(sat, h)|)
  }

  function SameHeight(sat: map<string, nat>, addresses: set<string>, h: nat): set<string> {
    set a | a in addresses && a in sat && sat[a] == h
  }

  method MaxUtxoHeight(heights: seq<nat>) returns (m: int)
    ensures m == MaxInt(heights)
    ensures (forall h :: h in heights ==> h < TWO31) ==> m == MaxOf(heights)
  {
    MaxIntExactIff(heights);
    m := 0;
    for i := 0 to |heights|
      invariant m == MaxInt(heights[..i])
    {
      if Widen(m) < heights[i] {
        m := ToInt(heights[i]);
      }
      assert heights[..i + 1][..i] == heights[..i];
    }
    assert heights[..|heights|] == heights;
  }

  method CollectQualified(nodes: seq<Node>) returns (sat: map<string, nat>)
    ensures sat == Qualified(nodes)
    ensures forall a :: a in sat <==> exists i: nat :: LastReport(nodes, a, i)
    ensures forall a, i: nat :: LastReport(nodes, a, i) ==> a in sat && sat[a] == nodes[i].height
  {
    forall a
      ensures a in Qualified(nodes) <==> exists i: nat :: LastReport(nodes, a, i)
      ensures forall i: nat ::
          LastReport(nodes, a, i) ==> a in Qualified(nodes) && Qualified(nodes)[a] == nodes[i].height
    {
      QualifiedIsLast(nodes, a);
    }
    sat := map[];
    for i := 0 to |nodes|
      invariant sat == Qualified(nodes[..i])
    {
      if nodes[i].qualified {
        sat := sat[nodes[i].address := nodes[i].height];
      }
      assert nodes[..i + 1][..i] == nodes[..i];
    }
    assert nodes[..|nodes|] == nodes;
  }

  method AddAll(start: map<string, nat>, nodes: seq<Node>) returns (sat: map<string, nat>)
    ensures sat == WithAll(start, nodes)
    ensures forall a :: a in start ==> a in sat && sat[a] == start[a]
    ensures forall a :: a !in start ==> (a in sat <==> exists i: nat :: FirstReport(nodes, a, i))
    ensures forall a, i: nat :: a !in start && FirstReport(nodes, a, i) ==> a in sat && sat[a] == nodes[i].height
  {
    forall a
      ensures a in start ==> a in WithAll(start, nodes) && WithAll(start, nodes)[a] == start[a]
      ensures a !in start ==> (a in WithAll(start, nodes) <==> exists i: nat :: FirstReport(nodes, a, i))
      ensures a !in start ==> forall i: nat ::
          FirstReport(nodes, a, i) ==> a in WithAll(start, nodes) && WithAll(start, nodes)[a] == nodes[i].height
    {
      WithAllIsFirst(start, nodes, a);
    }
    sat := start;
    for i := 0 to |nodes|
      invariant sat == WithAll(start, nodes[..i])
    {
      if nodes[i].address !in sat {
        sat := sat[nodes[i].address := nodes[i].height];
      }
      assert nodes[..i + 1][..i] == nodes[..i];
    }
    assert nodes[..|nodes|] == nodes;
  }

  /** The nodes among the given addresses that reach h. */
  function Reaching(sat: map<string, nat>, addresses: set<string>, h: nat): set<string> {
    set a | a in addresses && a in sat && sat[a] >= h
  }

  /** How many of the given addresses report each height. */
  ghost predicate Frequencies(frequency: map<nat, nat>, sat: map<string, nat>, addresses: set<string>) {
    forall h: nat :: FrequencyAt(frequency, sat, addresses, h)
  }

  /** The first pass: how many nodes reach the utxo height, and how many report each height. */
  method CountHeights(sat: map<string, nat>, maxUtxo: nat) returns (matches: nat, frequency: map<nat, nat>)
    ensures matches == |AtLeast(sat, maxUtxo)|
    ensures Frequencies(frequency, sat, sat.Keys)
  {
    var rest := sat.Keys;
    matches, frequency := 0, map[];
    while rest != {}
      invariant rest <= sat.Keys
      invariant matches == |Reaching(sat, sat.Keys - rest, maxUtxo)|
      invariant Frequencies(frequency, sat, sat.Keys - rest)
    {
      var a := Orders.First(rest);
      ghost var done := sat.Keys - rest;
      NextReaching(sat, done, a, maxUtxo);
      if sat[a] >= maxUtxo {
        matches := matches + 1;
      }
      ghost var before := frequency;
      frequency := frequency[sat[a] := (if sat[a] in frequency then frequency[sat[a]] else 0) + 1];
      NextFrequency(before, frequency, sat, done, a);
      rest := rest - {a};
      assert sat.Keys - rest == done + {a};
    }
    assert sat.Keys - rest == sat.Keys;
    assert AtLeast(sat, maxUtxo) == Reaching(sat, sat.Keys, maxUtxo);
  }

  lemma {:induction false} NextReaching(sat: map<string, nat>, done: set<string>, a: string, h: nat)
    requires a in sat && a !in done
    ensures |Reaching(sat, done + {a}, h)| == |Reaching(sat, done, h)| + if sat[a] >= h then 1 else 0
  {
    var before := Reaching(sat, done, h);
    assert Reaching(sat, done + {a}, h) == if sat[a] >= h then before + {a} else before;
  }

  lemma {:induction false} NextSameHeight(sat: map<string, nat>, done: set<string>, a: string, h: nat)
    requires a in sat && a !in done
    ensures h != sat[a] ==> SameHeight(sat, done + {a}, h) == SameHeight(sat, done, h)
    ensures h == sat[a] ==> SameHeight(sat, done + {a}, h) == SameHeight(sat, done, h) + {a}
    ensures a !in SameHeight(sat, done, h)
  {
    if h != sat[a] {
      assert SameHeight(sat, done + {a}, h) == SameHeight(sat, done, h);
    } else {
      assert SameHeight(sat, done + {a}, h) == SameHeight(sat, done, h) + {a};
    }
  }

  ghost predicate FrequencyAt(frequency: map<nat, nat>, sat: map<string, nat>, addresses: set<string>, h: nat) {
    && (h in frequency <==> SameHeight(sat, addresses, h) != {})
    && (h in frequency ==> frequency[h] == |SameHeight(sat, addresses, h)|)
  }

  lemma {:induction false} NextFrequencyAt(frequency: map<nat, nat>, next: map<nat, nat>, sat: map<string, nat>,
                                           done: set<string>, a: string, h: nat)
    requires a in sat && a !in done && FrequencyAt(frequency, sat, done, h)
    requires next == frequency[sat[a] := (if sat[a] in frequency then frequency[sat[a]] else 0) + 1]
    ensures FrequencyAt(next, sat, done + {a}, h)
  {
    NextSameHeight(sat, done, a, h);
    var before, after := SameHeight(sat, done, h), SameHeight(sat, done + {a}, h);
    if h == sat[a] {
      assert |after| == |before| + 1;
    }
  }

  lemma {:induction false} NextFrequency(frequency: map<nat, nat>, next: map<nat, nat>, sat: map<string, nat>,
                                         done: set<string>, a: string)
    requires a in sat && a !in done && Frequencies(frequency, sat, done)
    requires next == frequency[sat[a] := (if sat[a] in frequency then frequency[sat[a]] else 0) + 1]
    ensures Frequencies(next, sat, done + {a})
  {
    forall h: nat ensures FrequencyAt(next, sat, done + {a}, h) {
      assert FrequencyAt(frequency, sat, done, h);
      NextFrequencyAt(frequency, next, sat, done, a, h);
    }
  }

  /** The counts of the heights from position i on. */
  ghost predicate CountsFrom(count: map<nat, nat>, sat: map<string, nat>, heights: seq<nat>, i: nat)
    requires i <= |heights|
  {
    && (forall h :: h in count <==> h in heights[i..])
    && (forall h :: h in count ==> count[h] == |AtLeast(sat, h)|)
  }

  lemma {:induction false} NextCount(count: map<nat, nat>, next: map<nat, nat>, sat: map<string, nat>,
                                     heights: seq<nat>, i: nat)
    requires i < |heights| && CountsFrom(count, sat, heights, i + 1)
    requires next == count[heights[i] := |AtLeast(sat, heights[i])|]
    ensures CountsFrom(next, sat, heights, i)
  {
    assert heights[i..] == [heights[i]] + heights[i + 1..];
  }

  lemma {:induction false} CountsAreCumulative(count: map<nat, nat>, sat: map<string, nat>, heights: seq<nat>)
    requires CountsFrom(count, sat, heights, 0)
    requires forall h: nat :: h in heights <==> Reported(sat, h)
    ensures IsCumulative(count, sat)
  {
    assert heights[0..] == heights;
  }

  lemma {:induction false} NextSupport(sat: map<string, nat>, frequency: map<nat, nat>, heights: seq<nat>, i: nat)
    requires i < |heights| && Ascends(heights) && Frequencies(frequency, sat, sat.Keys)
    requires forall h: nat :: h in heights <==> h in frequency
    ensures heights[i] in frequency
    ensures SupportFrom(sat, heights, i) == frequency[heights[i]] + SupportFrom(sat, heights, i + 1)
  {
    ReportedIffFrequent(frequency, sat);
    assert heights[i] in heights;
    FrequencyIs(frequency, sat, heights[i]);
    NextHeight(sat, heights, i);
  }

  /** The reverse walk: counts accumulate from the greatest height down. */
  method Accumulate(sat: map<string, nat>, frequency: map<nat, nat>) returns (count: map<nat, nat>)
    requires Frequencies(frequency, sat, sat.Keys)
    ensures IsCumulative(count, sat)
  {
    var heights := Orders.AscendingNats(frequency.Keys);
    assert Ascends(heights) && forall h: nat :: h in heights <==> h in frequency;
    count := WalkDown(sat, frequency, heights);
    ReportedIffFrequent(frequency, sat);
    CountsAreCumulative(count, sat, heights);
  }

  method WalkDown(sat: map<string, nat>, frequency: map<nat, nat>, heights: seq<nat>) returns (count: map<nat, nat>)
    requires Ascends(heights) && Frequencies(frequency, sat, sat.Keys)
    requires forall h: nat :: h in heights <==> h in frequency
    ensures CountsFrom(count, sat, heights, 0)
  {
    var cumulative := 0;
    count := map[];
    for i := |heights| downto 0
      invariant CountsFrom(count, sat, heights, i)
      invariant cumulative == SupportFrom(sat, heights, i)
    {
      NextSupport(sat, frequency, heights, i);
      NextCount(count, count[heights[i] := SupportFrom(sat, heights, i)], sat, heights, i);
      cumulative := cumulative + frequency[heights[i]];
      count := count[heights[i] := cumulative];
    }
  }

  lemma {:induction false} FrequencyIs(frequency: map<nat, nat>, sat: map<string, nat>, h: nat)
    requires Frequencies(frequency, sat, sat.Keys) && h in frequency
    ensures frequency[h] == |SameHeight(sat, sat.Keys, h)|
  {
    assert FrequencyAt(frequency, sat, sat.Keys, h);
  }

  function SupportFrom(sat: map<string, nat>, heights: seq<nat>, i: nat): nat
    requires i <= |heights|
  {
    if i == |heights| then 0 else |AtLeast(sat, heights[i])|
  }

  lemma {:induction false} ReportedIffFrequent(frequency: map<nat, nat>, sat: map<string, nat>)
    requires Frequencies(frequency, sat, sat.Keys)
    ensures forall h: nat :: Reported(sat, h) <==> h in frequency
    ensures forall a :: a in sat ==> sat[a] in frequency
  {
    forall h: nat ensures Reported(sat, h) <==> h in frequency {
      assert FrequencyAt(frequency, sat, sat.Keys, h);
      if Reported(sat, h) {
        var a :| a in sat && sat[a] == h;
        assert a in SameHeight(sat, sat.Keys, h);
      } else {
        assert SameHeight(sat, sat.Keys, h) == {};
      }
    }
    assert forall a :: a in sat ==> Reported(sat, sat[a]);
  }

  ghost predicate Ascends(heights: seq<nat>) {
    forall j, k :: 0 <= j < k < |heights| ==> heights[j] < heights[k]
  }

  function Above(sat: map<string, nat>, heights: seq<nat>, i: nat): set<string>
    requires i <= |heights|
  {
    if i == |heights| then {} else AtLeast(sat, heights[i])
  }

  lemma {:induction false} NextHeightAt(sat: map<string, nat>, heights: seq<nat>, i: nat, a: string)
    requires i < |heights| && Ascends(heights) && a in sat && sat[a] in heights
    ensures sat[a] >= heights[i] <==> sat[a] == heights[i] || a in Above(sat, heights, i + 1)
    ensures !(sat[a] == heights[i] && a in Above(sat, heights, i + 1))
  {
    var j :| 0 <= j < |heights| && heights[j] == sat[a];
    if i + 1 < |heights| {
      assert heights[i] < heights[i + 1];
      assert j == i + 1 || (j <= i && heights[j] <= heights[i]) || heights[i + 1] < heights[j];
    }
  }

  lemma {:induction false} NextHeight(sat: map<string, nat>, heights: seq<nat>, i: nat)
    requires i < |heights| && Ascends(heights)
    requires forall a :: a in sat ==> sat[a] in heights
    ensures |AtLeast(sat, heights[i])| == |SameHeight(sat, sat.Keys, heights[i])| + SupportFrom(sat, heights, i + 1)
  {
    var same, above := SameHeight(sat, sat.Keys, heights[i]), Above(sat, heights, i + 1);
    forall a | a in sat
      ensures a in AtLeast(sat, heights[i]) <==> a in same || a in above
      ensures !(a in same && a in above)
    {
      NextHeightAt(sat, heights, i, a);
    }
    assert above <= sat.Keys;
    assert AtLeast(sat, heights[i]) == same + above;
    assert same !! above;
  }

  /** If three quarters reach m at all, some reported height at or above m has the same support. */
  lemma {:induction false} QuorumIsReported(sat: map<string, nat>, m: nat) returns (h: nat)
    requires Quorum(sat, m) && |sat| > 0
    ensures h >= m && Reported(sat, h) && Quorum(sat, h)
  {
    var heights := set a | a in AtLeast(sat, m) :: sat[a];
    assert AtLeast(sat, m) != {};
    var b :| b in AtLeast(sat, m);
    assert sat[b] in heights;
    h := Orders.Least(heights);
    forall a ensures a in AtLeast(sat, m) <==> a in AtLeast(sat, h) {
      if a in AtLeast(sat, m) { assert sat[a] in heights; }
    }
    assert AtLeast(sat, h) == AtLeast(sat, m);
  }

  /** The choice over the cumulative counts, from the greatest reported height down. */
  method ChooseHeight(sat: map<string, nat>, count: map<nat, nat>, maxUtxo: nat, top: nat) returns (ret: int)
    requires IsCumulative(count, sat) && Quorum(sat, maxUtxo)
    ensures ret == -4 <==> |sat| == 0
    ensures ret != -4 ==> ret >= maxUtxo && Reported(sat, ret) && Quorum(sat, ret)
    ensures ret != -4 && ret != top ==> forall h: nat :: Reported(sat, h) && h > ret ==> !Quorum(sat, h)
    ensures top >= maxUtxo && Reported(sat, top) && Quorum(sat, top) ==> ret == top
  {
    if top >= maxUtxo {
      if top in count && 4 * count[top] >= 3 * |sat| {
        return top;
      }
    }
    ret := GreatestQuorum(sat, count, maxUtxo);
  }

  /** Some counted height qualifies, unless there is nobody to count. */
  lemma {:induction false} QuorumIsCounted(sat: map<string, nat>, count: map<nat, nat>, maxUtxo: nat)
    requires IsCumulative(count, sat) && Quorum(sat, maxUtxo)
    ensures |sat| > 0 ==> exists w :: w in count && w >= maxUtxo && Quorum(sat, w)
    ensures |sat| == 0 ==> |count| == 0
  {
    if |sat| > 0 {
      var w := QuorumIsReported(sat, maxUtxo);
    } else {
      assert forall h :: h in count ==> Reported(sat, h);
      assert sat.Keys == {} && count.Keys == {};
    }
  }

  /** The descending walk; a height below the utxo height would end it with -3. */
  method GreatestQuorum(sat: map<string, nat>, count: map<nat, nat>, maxUtxo: nat) returns (ret: int)
    requires IsCumulative(count, sat) && Quorum(sat, maxUtxo)
    ensures ret == -4 <==> |sat| == 0
    ensures ret != -4 ==> ret >= maxUtxo && Reported(sat, ret) && Quorum(sat, ret)
    ensures ret != -4 ==> forall h: nat :: Reported(sat, h) && h > ret ==> !Quorum(sat, h)
  {
    QuorumIsCounted(sat, count, maxUtxo);
    var heights := Orders.AscendingNats(count.Keys);
    assert Ascends(heights) && forall h :: h in heights <==> h in count;
    assert |sat| > 0 ==> exists w :: w in heights && w >= maxUtxo && Quorum(sat, w);
    assert heights == [] <==> |count| == 0;
    ret := Descend(sat, count, heights, maxUtxo);
    assert ret >= 0 ==> forall h: nat :: Reported(sat, h) ==> h in heights;
  }

  /** The walk itself; it finds a height with a quorum before it meets one below the utxo height. */
  method Descend(sat: map<string, nat>, count: map<nat, nat>, heights: seq<nat>, maxUtxo: nat) returns (ret: int)
    requires Ascends(heights) && forall h :: h in heights ==> h in count && count[h] == |AtLeast(sat, h)|
    requires heights != [] ==> exists w :: w in heights && w >= maxUtxo && Quorum(sat, w)
    ensures ret == -4 <==> heights == []
    ensures ret != -4 ==> ret >= maxUtxo && ret in heights && Quorum(sat, ret)
    ensures ret != -4 ==> forall h: nat :: h in heights && h > ret ==> !Quorum(sat, h)
  {
    for i := |heights| downto 0
      invariant forall k :: i <= k < |heights| ==> heights[k] >= maxUtxo && !Quorum(sat, heights[k])
    {
      var h := heights[i];
      assert h in heights;
      if h < maxUtxo {
        return -3;
      }
      if 4 * count[h] >= 3 * |sat| {
        return h;
      }
    }
    return -4;
  }

  /** The addresses that qualify. */
  function QualifiedAddresses(nodes: seq<Node>): set<string> {
    set i | 0 <= i < |nodes| && nodes[i].qualified :: nodes[i].address
  }

  lemma {:induction false} QualifiedKeys(nodes: seq<Node>)
    ensures Qualified(nodes).Keys == QualifiedAddresses(nodes)
  {
    if nodes != [] {
      var n := |nodes| - 1;
      QualifiedKeys(nodes[..n]);
      forall a ensures a in QualifiedAddresses(nodes) <==>
        a in QualifiedAddresses(nodes[..n]) || (nodes[n].qualified && nodes[n].address == a)
      {
        assert forall i :: 0 <= i < n ==> nodes[..n][i] == nodes[i];
        if i :| 0 <= i < n && nodes[i].qualified && nodes[i].address == a {
          assert nodes[..n][i].address == a;
        }
      }
    }
  }

  /** Who is counted, and with which height: the qualified addresses with their last qualified report; and, when
      fewer than minQual qualify and the utxo height is below minUnstake, every other address with its first. */
  lemma {:induction false} CountedMeans(nodes: seq<Node>, m: nat, minQual: nat, minUnstake: nat, a: string)
    ensures var sat := Counted(nodes, m, minQual, minUnstake);
      var open := |QualifiedAddresses(nodes)| < minQual && m < minUnstake;
      && (a in sat <==> exists i :: 0 <= i < |nodes| && nodes[i].address == a && (nodes[i].qualified || open))
      && (forall i: nat :: LastReport(nodes, a, i) ==> a in sat && sat[a] == nodes[i].height)
      && (forall i: nat :: open && FirstReport(nodes, a, i) && a !in QualifiedAddresses(nodes) ==>
          a in sat && sat[a] == nodes[i].height)
  {
    QualifiedKeys(nodes);
    QualifiedIsLast(nodes, a);
    WithAllIsFirst(Qualified(nodes), nodes, a);
    if i :| 0 <= i < |nodes| && nodes[i].address == a {
      if forall k: nat :: !FirstReport(nodes, a, k) { NoFirstReport(nodes, a, |nodes|); }
    }
  }

  /** The choice before it is converted. -1: too few qualified nodes; -2: too few nodes at the utxo height m;
      -4: nobody to count; never -3. A height is reported, at least m, and reached by three quarters of the
      counted nodes; it is the store's top when the top qualifies, and otherwise the greatest such height. */
  ghost predicate IsChoice(chosen: int, m: nat, nodes: seq<Node>, top: nat, minQual: nat, minUnstake: nat) {
    var sat := Counted(nodes, m, minQual, minUnstake);
    && (chosen == -1 <==> |Qualified(nodes)| < minQual && m >= minUnstake)
    && (chosen == -2 <==> chosen != -1 && !Quorum(sat, m))
    && (chosen == -4 <==> chosen != -1 && |sat| == 0)
    && (chosen < 0 ==> chosen == -1 || chosen == -2 || chosen == -4)
    && (chosen >= 0 ==> chosen >= m && Reported(sat, chosen) && Quorum(sat, chosen))
    && (chosen >= 0 && chosen != top ==> forall h: nat :: Reported(sat, h) && h > chosen ==> !Quorum(sat, h))
    && (chosen >= 0 && top >= m && Reported(sat, top) && Quorum(sat, top) ==> chosen == top)
  }

  method Choose(m: nat, nodes: seq<Node>, top: nat, minQual: nat, minUnstake: nat) returns (chosen: int)
    ensures IsChoice(chosen, m, nodes, top, minQual, minUnstake)
  {
    var sat := CollectQualified(nodes);
    if |sat| < minQual && m < minUnstake {
      sat := AddAll(sat, nodes);
    } else if |sat| < minQual {
      return -1;
    }
    var matches, frequency := CountHeights(sat, m);
    var count := Accumulate(sat, frequency);
    if 4 * matches < 3 * |sat| {
      return -2;
    }
    chosen := ChooseHeight(sat, count, m, top);
  }

  /** The chosen height as a signed 32-bit number. */
  function Returned(chosen: int): int {
    if chosen < 0 then chosen else ToInt(chosen)
  }

  /** The choice in numbers of nodes. */
  lemma {:induction false} ChoiceMeans(chosen: int, m: nat, nodes: seq<Node>, top: nat, minQual: nat, minUnstake: nat)
    requires IsChoice(chosen, m, nodes, top, minQual, minUnstake)
    ensures var sat := Counted(nodes, m, minQual, minUnstake);
      && (chosen == -1 <==> |QualifiedAddresses(nodes)| < minQual && m >= minUnstake)
      && (chosen == -2 <==> chosen != -1 && 4 * |set a | a in sat && sat[a] >= m| < 3 * |sat|)
      && (chosen >= 0 ==> chosen >= m && chosen in sat.Values)
      && (chosen >= 0 ==> 4 * |set a | a in sat && sat[a] >= chosen| >= 3 * |sat|)
      && (forall h: nat :: chosen >= 0 && chosen != top && h in sat.Values && h > chosen ==>
          4 * |set a | a in sat && sat[a] >= h| < 3 * |sat|)
  {
    QualifiedKeys(nodes);
    var sat := Counted(nodes, m, minQual, minUnstake);
    assert |Qualified(nodes)| == |Qualified(nodes).Keys|;
    assert AtLeast(sat, m) == set a | a in sat && sat[a] >= m;
    if chosen >= 0 { assert AtLeast(sat, chosen) == set a | a in sat && sat[a] >= chosen; }
    forall h: nat | chosen >= 0 && chosen != top && h in sat.Values && h > chosen
      ensures 4 * |set a | a in sat && sat[a] >= h| < 3 * |sat|
    {
      assert Reported(sat, h) && AtLeast(sat, h) == set a | a in sat && sat[a] >= h;
    }
  }

  /** The conversion leaves the choice alone if and only if it fits in 31 bits. */
  lemma {:induction false} ReturnedExactIff(chosen: int)
    ensures Returned(chosen) == chosen <==> chosen < TWO31
  {
  }

  lemma {:induction false} ChoiceIsUnique(a: int, b: int, m: nat, nodes: seq<Node>, top: nat, minQual: nat,
                                          minUnstake: nat)
    requires IsChoice(a, m, nodes, top, minQual, minUnstake) && IsChoice(b, m, nodes, top, minQual, minUnstake)
    ensures a == b
  {
    if a >= 0 && b >= 0 {
      assert a == top || b == top || (a <= b && b <= a);
    }
  }

  /** The smallest height that does not fit is kept as a negative number, and compared as a huge one. */
  lemma {:induction false} MaxIntOverflows()
    ensures MaxOf([TWO31]) == TWO31 && MaxInt([TWO31]) == -TWO31 && Widen(MaxInt([TWO31])) == TWO64 - TWO31
  {
    assert [TWO31][..0] == [];
  }

  /** One qualified node at that height: it is the choice, and what is returned is negative. */
  lemma {:induction false} HugeHeightIsMisreturned(address: string, chosen: int)
    ensures var nodes := [Node(address, TWO31, true)];
      && IsChoice(TWO31, Widen(MaxInt([])), nodes, 0, 1, 0) && Returned(TWO31) == -TWO31
      && (IsChoice(chosen, Widen(MaxInt([])), nodes, 0, 1, 0) ==> Returned(chosen) == -TWO31)
  {
    var nodes := [Node(address, TWO31, true)];
    assert nodes[..0] == [];
    var sat := Qualified(nodes);
    assert sat == map[address := TWO31] && |sat| == 1;
    assert AtLeast(sat, 0) == {address} && AtLeast(sat, TWO31) == {address};
    assert sat[address] == TWO31 && Reported(sat, TWO31);
    if IsChoice(chosen, 0, nodes, 0, 1, 0) {
      ChoiceIsUnique(chosen, TWO31, 0, nodes, 0, 1, 0);
    }
  }

  /** While the greatest utxo height fits in 31 bits, the choice is returned if and only if it does too. */
  method GetBuildBlockHeight(utxoHeights: seq<nat>, nodes: seq<Node>, top: nat, minQual: nat, minUnstake: nat)
    returns (ret: int)
    ensures exists chosen ::
      IsChoice(chosen, Widen(MaxInt(utxoHeights)), nodes, top, minQual, minUnstake) && ret == Returned(chosen)
    ensures MaxOf(utxoHeights) < TWO31 ==> forall chosen ::
      IsChoice(chosen, MaxOf(utxoHeights), nodes, top, minQual, minUnstake) ==> (ret == chosen <==> chosen < TWO31)
    ensures MaxOf(utxoHeights) < TWO31 && (forall i :: 0 <= i < |nodes| ==> nodes[i].height < TWO31) ==>
      IsChoice(ret, MaxOf(utxoHeights), nodes, top, minQual, minUnstake)
  {
    var m := MaxUtxoHeight(utxoHeights);
    MaxIntExactIff(utxoHeights);
    var chosen := Choose(Widen(m), nodes, top, minQual, minUnstake);
    ret := if chosen < 0 then chosen else ToInt(chosen);
    ReturnedExactIff(chosen);
    if MaxOf(utxoHeights) < TWO31 {
      forall other | IsChoice(other, MaxOf(utxoHeights), nodes, top, minQual, minUnstake) ensures other == chosen {
        ChoiceIsUnique(other, chosen, MaxOf(utxoHeights), nodes, top, minQual, minUnstake);
      }
    }
    if forall i :: 0 <= i < |nodes| ==> nodes[i].height < TWO31 {
      ReportedIsSmall(nodes, Widen(m), minQual, minUnstake, chosen);
    }
  }

  lemma {:induction false} ReportedIsSmall(nodes: seq<Node>, m: nat, minQual: nat, minUnstake: nat, h: int)
    requires forall i :: 0 <= i < |nodes| ==> nodes[i].height < TWO31
    ensures h >= 0 && Reported(Counted(nodes, m, minQual, minUnstake), h) ==> h < TWO31
  {
    var q, sat := Qualified(nodes), Counted(nodes, m, minQual, minUnstake);
    if h >= 0 && Reported(sat, h) {
      var a :| a in sat && sat[a] == h;
      QualifiedIsLast(nodes, a);
      WithAllIsFirst(q, nodes, a);
    }
  }
}
