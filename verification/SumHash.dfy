/** Sum hashes of block hashes (ca/sync_block.cpp): hash of the sorted concatenation, per height and
    over several heights, and the local difference that relies on the in-place sort. The hash
    function is a parameter. */
module SumHash {
  import opened Orders

  function Concat(hs: seq<string>): string {
    if hs == [] then "" else hs[0] + Concat(hs[1..])
  }

  /** The string that is hashed for a vector. */
  function Text(hs: seq<string>): string {
    Concat(Sort(hs))
  }

  /** calculateSumHeightHash, as a function of the vector's content. */
  function SumOf(H: string -> string, hs: seq<string>): string {
    H(Text(hs))
  }

  function HeightLists(m: map<nat, seq<string>>): seq<seq<string>> {
    ListsAt(AscendingNats(m.Keys), m)
  }

  function ListsAt(heights: seq<nat>, m: map<nat, seq<string>>): seq<seq<string>>
    requires forall h :: h in heights ==> h in m
  {
    seq(|heights|, i requires 0 <= i < |heights| => m[heights[i]])
  }

  function SumsOf(H: string -> string, lists: seq<seq<string>>): seq<string> {
    seq(|lists|, i requires 0 <= i < |lists| => SumOf(H, lists[i]))
  }

  function ContentsOf(lists: seq<seq<string>>): seq<multiset<string>> {
    seq(|lists|, i requires 0 <= i < |lists| => multiset(lists[i]))
  }

  /** sumHeightsHash: the sum hash of the per-height sum hashes. */
  function SumHeights(H: string -> string, m: map<nat, seq<string>>): string {
    SumOf(H, SumsOf(H, HeightLists(m)))
  }

  /** Two different strings with one digest. */
  ghost predicate Collide(H: string -> string, s: string, t: string) {
    s != t && H(s) == H(t)
  }

  /** On the strings that are hashed: no collisions, and digests of one positive length. */
  ghost predicate GoodOn(H: string -> string, len: nat, hashed: seq<string>) {
    && len > 0
    && (forall s :: s in hashed ==> |H(s)| == len)
    && (forall s, t :: s in hashed && t in hashed ==> !Collide(H, s, t))
  }

  ghost predicate AllOfLength(hs: seq<string>, len: nat) {
    forall h :: h in hs ==> |h| == len
  }

  lemma {:induction false} ConcatInjective(a: seq<string>, b: seq<string>, len: nat)
    requires len > 0 && AllOfLength(a, len) && AllOfLength(b, len) && Concat(a) == Concat(b)
    ensures a == b
  {
    if a != [] && b != [] {
      assert |a[0]| == len && |b[0]| == len;
      assert a[0] == Concat(a)[..len] && b[0] == Concat(b)[..len];
      assert Concat(a[1..]) == Concat(a)[len..] && Concat(b[1..]) == Concat(b)[len..];
      ConcatInjective(a[1..], b[1..], len);
      assert a == [a[0]] + a[1..] && b == [b[0]] + b[1..];
    }
  }

  lemma {:induction false} SortKeepsLength(hs: seq<string>, len: nat)
    requires AllOfLength(hs, len)
    ensures AllOfLength(Sort(hs), len)
  {
    SortSorts(hs);
    forall h | h in Sort(hs) ensures |h| == len {
      assert h in multiset(Sort(hs));
      assert h in hs;
    }
  }

  /** Two vectors of equally long block hashes have the same sum hash exactly when they hold the same hashes, in
      whatever order and with the same multiplicities, or the digest collides on their two texts. */
  lemma {:induction false} SumIffSameContent(H: string -> string, a: seq<string>, b: seq<string>, len: nat)
    requires len > 0 && AllOfLength(a, len) && AllOfLength(b, len)
    ensures SumOf(H, a) == SumOf(H, b) <==> multiset(a) == multiset(b) || Collide(H, Text(a), Text(b))
  {
    SortCanonical(a, b);
    if Text(a) == Text(b) {
      SortKeepsLength(a, len);
      SortKeepsLength(b, len);
      ConcatInjective(Sort(a), Sort(b), len);
    }
  }

  /** Arrival order never matters, whatever the hash function. */
  lemma {:induction false} SumForgetsOrder(H: string -> string, a: seq<string>, b: seq<string>)
    requires multiset(a) == multiset(b)
    ensures SumOf(H, a) == SumOf(H, b)
  {
    SortCanonical(a, b);
  }

  lemma {:induction false} TakeOut<A>(s: seq<A>, j: nat)
    requires j < |s|
    ensures multiset(s[..j] + s[j + 1..]) == multiset(s) - multiset{s[j]}
  {
    assert s == s[..j] + [s[j]] + s[j + 1..];
  }

  /** Values that agree have labels that agree. */
  ghost predicate Follows<A, B>(a1: seq<A>, b1: seq<B>, a2: seq<A>, b2: seq<B>) {
    && |a1| == |b1| && |a2| == |b2|
    && forall i, j :: 0 <= i < |a1| && 0 <= j < |a2| && a1[i] == a2[j] ==> b1[i] == b2[j]
  }

  /** If labels agree wherever values do, equal bags of values give equal bags of labels. */
  lemma {:induction false} BagsFollow<A, B>(a1: seq<A>, b1: seq<B>, a2: seq<A>, b2: seq<B>)
    requires Follows(a1, b1, a2, b2) && multiset(a1) == multiset(a2)
    ensures multiset(b1) == multiset(b2)
  {
    assert |multiset(a1)| == |multiset(a2)|;
    if a1 != [] {
      assert a1[0] in multiset(a2);
      var j :| 0 <= j < |a2| && a2[j] == a1[0];
      var c, d := a2[..j] + a2[j + 1..], b2[..j] + b2[j + 1..];
      DropFirst(a1);
      DropFirst(b1);
      TakeOut(a2, j);
      TakeOut(b2, j);
      assert Follows(a1[1..], b1[1..], c, d);
      BagsFollow(a1[1..], b1[1..], c, d);
      PutBack(b1, b2, j);
    }
  }

  lemma {:induction false} DropFirst<A>(s: seq<A>)
    requires s != []
    ensures multiset(s[1..]) == multiset(s) - multiset{s[0]}
  {
    assert s == [s[0]] + s[1..];
  }

  lemma {:induction false} PutBack<B>(b1: seq<B>, b2: seq<B>, j: nat)
    requires b1 != [] && j < |b2| && b1[0] == b2[j]
    requires multiset(b1[1..]) == multiset(b2[..j] + b2[j + 1..])
    ensures multiset(b1) == multiset(b2)
  {
    assert b1 == [b1[0]] + b1[1..];
    assert b2 == b2[..j] + [b2[j]] + b2[j + 1..];
  }

  ghost predicate AllListsOfLength(m: map<nat, seq<string>>, len: nat) {
    forall h :: h in m ==> AllOfLength(m[h], len)
  }

  lemma {:induction false} ListsHaveLength(m: map<nat, seq<string>>, len: nat)
    requires AllListsOfLength(m, len)
    ensures forall i :: 0 <= i < |HeightLists(m)| ==> AllOfLength(HeightLists(m)[i], len)
  {
    var heights := AscendingNats(m.Keys);
    forall i | 0 <= i < |heights| ensures AllOfLength(HeightLists(m)[i], len) {
      assert heights[i] in heights;
    }
  }

  /** The same bag of per-height bags has the same multi-height sum hash, whatever the hash function. */
  lemma {:induction false} SameContentsSameSum(H: string -> string, x: seq<seq<string>>, y: seq<seq<string>>)
    requires multiset(ContentsOf(x)) == multiset(ContentsOf(y))
    ensures SumOf(H, SumsOf(H, x)) == SumOf(H, SumsOf(H, y))
  {
    forall i, j | 0 <= i < |x| && 0 <= j < |y| && ContentsOf(x)[i] == ContentsOf(y)[j]
      ensures SumsOf(H, x)[i] == SumsOf(H, y)[j]
    {
      SumForgetsOrder(H, x[i], y[j]);
    }
    BagsFollow(ContentsOf(x), SumsOf(H, x), ContentsOf(y), SumsOf(H, y));
    SumForgetsOrder(H, SumsOf(H, x), SumsOf(H, y));
  }

  function Texts(lists: seq<seq<string>>): seq<string> {
    seq(|lists|, i requires 0 <= i < |lists| => Text(lists[i]))
  }

  lemma {:induction false} TextsIn(x: seq<seq<string>>, y: seq<seq<string>>)
    ensures forall i :: 0 <= i < |x| ==> Text(x[i]) in Texts(x) + Texts(y)
    ensures forall j :: 0 <= j < |y| ==> Text(y[j]) in Texts(x) + Texts(y)
  {
    var texts := Texts(x) + Texts(y);
    forall i | 0 <= i < |x| ensures Text(x[i]) in texts { assert texts[i] == Text(x[i]); }
    forall j | 0 <= j < |y| ensures Text(y[j]) in texts { assert texts[|x| + j] == Text(y[j]); }
  }

  /** Everything that is hashed for two sequences of lists: the text of each list, and those of their sums. */
  function Hashed(H: string -> string, x: seq<seq<string>>, y: seq<seq<string>>): seq<string> {
    Texts(x) + Texts(y) + [Text(SumsOf(H, x)), Text(SumsOf(H, y))]
  }

  lemma {:induction false} HashedHolds(H: string -> string, x: seq<seq<string>>, y: seq<seq<string>>)
    ensures forall i :: 0 <= i < |x| ==> Text(x[i]) in Hashed(H, x, y)
    ensures forall j :: 0 <= j < |y| ==> Text(y[j]) in Hashed(H, x, y)
    ensures Text(SumsOf(H, x)) in Hashed(H, x, y) && Text(SumsOf(H, y)) in Hashed(H, x, y)
  {
    var tops := [Text(SumsOf(H, x)), Text(SumsOf(H, y))];
    TextsIn(x, y);
    assert tops[0] in tops && tops[1] in tops;
  }

  ghost predicate AllListsOf(lists: seq<seq<string>>, len: nat) {
    forall i :: 0 <= i < |lists| ==> AllOfLength(lists[i], len)
  }

  lemma {:induction false} EqualSumsAgree(H: string -> string, x: seq<seq<string>>, y: seq<seq<string>>, blockLen: nat)
    requires blockLen > 0 && AllListsOf(x, blockLen) && AllListsOf(y, blockLen)
    requires forall i, j :: 0 <= i < |x| && 0 <= j < |y| ==> !Collide(H, Text(x[i]), Text(y[j]))
    ensures Follows(SumsOf(H, x), ContentsOf(x), SumsOf(H, y), ContentsOf(y))
  {
    forall i, j | 0 <= i < |x| && 0 <= j < |y| && SumsOf(H, x)[i] == SumsOf(H, y)[j]
      ensures ContentsOf(x)[i] == ContentsOf(y)[j]
    {
      SumIffSameContent(H, x[i], y[j], blockLen);
    }
  }

  lemma {:induction false} EqualTopsAgree(H: string -> string, x: seq<seq<string>>, y: seq<seq<string>>, len: nat)
    requires GoodOn(H, len, Hashed(H, x, y)) && SumOf(H, SumsOf(H, x)) == SumOf(H, SumsOf(H, y))
    ensures multiset(SumsOf(H, x)) == multiset(SumsOf(H, y))
  {
    HashedHolds(H, x, y);
    SumIffSameContent(H, SumsOf(H, x), SumsOf(H, y), len);
  }

  /** Without a collision among the strings that are hashed, equal multi-height sums come from equal contents. */
  lemma {:induction false} SameSumSameContents(H: string -> string, x: seq<seq<string>>, y: seq<seq<string>>,
                                               blockLen: nat, len: nat)
    requires blockLen > 0 && AllListsOf(x, blockLen) && AllListsOf(y, blockLen)
    requires GoodOn(H, len, Hashed(H, x, y)) && SumOf(H, SumsOf(H, x)) == SumOf(H, SumsOf(H, y))
    ensures multiset(ContentsOf(x)) == multiset(ContentsOf(y))
  {
    HashedHolds(H, x, y);
    EqualSumsAgree(H, x, y, blockLen);
    EqualTopsAgree(H, x, y, len);
    BagsFollow(SumsOf(H, x), ContentsOf(x), SumsOf(H, y), ContentsOf(y));
  }

  /** Two height maps have the same multi-height sum hash exactly when they hold the same bag of per-height bags. */
  lemma {:induction false} SumHeightsIffSameContents(H: string -> string, m1: map<nat, seq<string>>,
                                                     m2: map<nat, seq<string>>, blockLen: nat, len: nat)
    requires blockLen > 0 && AllListsOfLength(m1, blockLen) && AllListsOfLength(m2, blockLen)
    requires GoodOn(H, len, Hashed(H, HeightLists(m1), HeightLists(m2)))
    ensures SumHeights(H, m1) == SumHeights(H, m2)
       <==> multiset(ContentsOf(HeightLists(m1))) == multiset(ContentsOf(HeightLists(m2)))
  {
    var x, y := HeightLists(m1), HeightLists(m2);
    ListsHaveLength(m1, blockLen);
    ListsHaveLength(m2, blockLen);
    if multiset(ContentsOf(x)) == multiset(ContentsOf(y)) {
      SameContentsSameSum(H, x, y);
    } else if SumHeights(H, m1) == SumHeights(H, m2) {
      SameSumSameContents(H, x, y, blockLen, len);
    }
  }

  // ---------- the law about the maps themselves ----------

  /** What is summed: one vector per height of the map, in ascending order of height. */
  lemma {:induction false} HeightListsAreAll(m: map<nat, seq<string>>) returns (heights: seq<nat>)
    ensures (forall i, j :: 0 <= i < j < |heights| ==> heights[i] < heights[j])
    ensures forall h: nat :: h in heights <==> h in m
    ensures |HeightLists(m)| == |heights| == |m|
    ensures forall i :: 0 <= i < |heights| ==> heights[i] in m && HeightLists(m)[i] == m[heights[i]]
  {
    heights := AscendingNats(m.Keys);
    forall i | 0 <= i < |heights| ensures heights[i] in m && HeightLists(m)[i] == m[heights[i]] {
      assert heights[i] in heights;
    }
  }

  /** The heights at which a map holds a bag of hashes. */
  function HeightsHolding(m: map<nat, seq<string>>, bag: multiset<string>): set<nat> {
    set h | h in m && multiset(m[h]) == bag
  }

  function HoldingAmong(heights: seq<nat>, m: map<nat, seq<string>>, bag: multiset<string>): set<nat> {
    set h | h in heights && h in m && multiset(m[h]) == bag
  }

  lemma {:induction false} HoldingNext(heights: seq<nat>, m: map<nat, seq<string>>, bag: multiset<string>)
    requires heights != [] && heights[|heights| - 1] in m && heights[|heights| - 1] !in heights[..|heights| - 1]
    ensures |HoldingAmong(heights, m, bag)| == |HoldingAmong(heights[..|heights| - 1], m, bag)|
              + if multiset(m[heights[|heights| - 1]]) == bag then 1 else 0
  {
    var n := |heights| - 1;
    var before, after := HoldingAmong(heights[..n], m, bag), HoldingAmong(heights, m, bag);
    assert heights == heights[..n] + [heights[n]];
    assert after == if multiset(m[heights[n]]) == bag then before + {heights[n]} else before;
  }

  lemma {:induction false} ContentsNext(lists: seq<seq<string>>, bag: multiset<string>)
    requires lists != []
    ensures multiset(ContentsOf(lists))[bag] == multiset(ContentsOf(lists[..|lists| - 1]))[bag]
              + if multiset(lists[|lists| - 1]) == bag then 1 else 0
  {
    var n := |lists| - 1;
    assert ContentsOf(lists) == ContentsOf(lists[..n]) + [multiset(lists[n])];
  }

  ghost predicate ListsOf(lists: seq<seq<string>>, heights: seq<nat>, m: map<nat, seq<string>>) {
    && |lists| == |heights|
    && (forall i, j :: 0 <= i < j < |heights| ==> heights[i] < heights[j])
    && forall i :: 0 <= i < |heights| ==> heights[i] in m && lists[i] == m[heights[i]]
  }

  lemma {:induction false} BagsAmong(heights: seq<nat>, m: map<nat, seq<string>>, lists: seq<seq<string>>,
                                     bag: multiset<string>)
    requires ListsOf(lists, heights, m)
    ensures multiset(ContentsOf(lists))[bag] == |HoldingAmong(heights, m, bag)|
  {
    if heights != [] {
      var n := |heights| - 1;
      BagsAmong(heights[..n], m, lists[..n], bag);
      HoldingNext(heights, m, bag);
      ContentsNext(lists, bag);
    }
  }

  lemma {:induction false} BagsOfHeights(m: map<nat, seq<string>>, bag: multiset<string>)
    ensures multiset(ContentsOf(HeightLists(m)))[bag] == |HeightsHolding(m, bag)|
  {
    var heights := HeightListsAreAll(m);
    BagsAmong(heights, m, HeightLists(m), bag);
    assert HeightsHolding(m, bag) == HoldingAmong(heights, m, bag);
  }

  lemma {:induction false} SameBags(x: multiset<multiset<string>>, y: multiset<multiset<string>>)
    requires forall bag :: x[bag] == y[bag]
    ensures x == y
  {
  }

  lemma {:induction false} SameContentsIffSameCounts(m1: map<nat, seq<string>>, m2: map<nat, seq<string>>)
    ensures multiset(ContentsOf(HeightLists(m1))) == multiset(ContentsOf(HeightLists(m2)))
       <==> forall bag :: |HeightsHolding(m1, bag)| == |HeightsHolding(m2, bag)|
  {
    var x, y := multiset(ContentsOf(HeightLists(m1))), multiset(ContentsOf(HeightLists(m2)));
    forall bag ensures x[bag] == |HeightsHolding(m1, bag)| && y[bag] == |HeightsHolding(m2, bag)| {
      BagsOfHeights(m1, bag);
      BagsOfHeights(m2, bag);
    }
    if forall bag :: |HeightsHolding(m1, bag)| == |HeightsHolding(m2, bag)| {
      SameBags(x, y);
    }
  }

  /** Two height maps have equal multi-height sums if and only if each bag of hashes is held at equally many
      heights of the one and the other. */
  lemma {:induction false} SumHeightsIffSameCounts(H: string -> string, m1: map<nat, seq<string>>,
                                                   m2: map<nat, seq<string>>, blockLen: nat, len: nat)
    requires blockLen > 0 && AllListsOfLength(m1, blockLen) && AllListsOfLength(m2, blockLen)
    requires GoodOn(H, len, Hashed(H, HeightLists(m1), HeightLists(m2)))
    ensures SumHeights(H, m1) == SumHeights(H, m2)
       <==> forall bag :: |HeightsHolding(m1, bag)| == |HeightsHolding(m2, bag)|
  {
    SumHeightsIffSameContents(H, m1, m2, blockLen, len);
    SameContentsIffSameCounts(m1, m2);
  }

  /** The text is built of the hashes in ascending order, one after the other. */
  lemma {:induction false} TextIsAscending(hs: seq<string>, a: seq<string>, x: string, b: seq<string>)
    requires Sorted(a + [x] + b) && multiset(a + [x] + b) == multiset(hs)
    ensures Text(hs) == Concat(a) + x + Concat(b)
  {
    SortSorts(hs);
    SortedUnique(Sort(hs), a + [x] + b);
    ConcatAdds(a + [x], b);
    ConcatAdds(a, [x]);
    assert Concat([x]) == x + Concat([]) == x;
  }

  lemma {:induction false} ConcatAdds(a: seq<string>, b: seq<string>)
    ensures Concat(a + b) == Concat(a) + Concat(b)
  {
    if a == [] {
      assert a + b == b;
    } else {
      assert (a + b)[1..] == a[1..] + b;
      ConcatAdds(a[1..], b);
    }
  }

  // ---------- such digests exist ----------

  /** A code word of the given length for each number below it. */
  function Code(i: nat, len: nat): string {
    seq(len, k => if k == i then '1' else '0')
  }

  /** Code words for strings, in the order in which they first occur. */
  function Encode(inputs: seq<string>, len: nat): map<string, string> {
    if inputs == [] then map[]
    else
      var codes, last := Encode(inputs[..|inputs| - 1], len), inputs[|inputs| - 1];
      if last in codes then codes else codes[last := Code(|codes|, len)]
  }

  function Digest(codes: map<string, string>): string -> string {
    s => if s in codes then codes[s] else ""
  }

  ghost predicate IsCode(code: string, n: nat, len: nat) {
    exists i :: 0 <= i < n && code == Code(i, len)
  }

  ghost predicate Coded(codes: map<string, string>, len: nat) {
    && (forall s :: s in codes ==> IsCode(codes[s], |codes|, len))
    && (forall s, t :: s in codes && t in codes && codes[s] == codes[t] ==> s == t)
  }

  lemma {:induction false} NextCodeIsNew(code: string, n: nat, len: nat)
    requires n < len && IsCode(code, n, len)
    ensures code != Code(n, len) && IsCode(code, n + 1, len)
  {
    var i :| 0 <= i < n && code == Code(i, len);
    assert code[i] == '1' && Code(n, len)[i] == '0';
  }

  lemma {:induction false} AddCode(codes: map<string, string>, last: string, len: nat)
    requires Coded(codes, len) && |codes| < len && last !in codes
    ensures var next := codes[last := Code(|codes|, len)]; Coded(next, len) && |next| == |codes| + 1
  {
    var n, next := |codes|, codes[last := Code(|codes|, len)];
    assert next.Keys == codes.Keys + {last};
    assert |next.Keys| == n + 1;
    forall s | s in codes ensures codes[s] != Code(n, len) && IsCode(codes[s], n + 1, len) {
      NextCodeIsNew(codes[s], n, len);
    }
    assert IsCode(Code(n, len), n + 1, len);
  }

  lemma {:induction false} EncodeIsCoded(inputs: seq<string>, len: nat)
    requires |inputs| <= len
    ensures Coded(Encode(inputs, len), len) && |Encode(inputs, len)| <= |inputs|
    ensures forall s :: s in inputs ==> s in Encode(inputs, len)
  {
    if inputs != [] {
      var before, last := inputs[..|inputs| - 1], inputs[|inputs| - 1];
      EncodeIsCoded(before, len);
      assert inputs == before + [last];
      if last !in Encode(before, len) { AddCode(Encode(before, len), last, len); }
    }
  }

  lemma {:induction false} EncodeKeeps(inputs: seq<string>, more: seq<string>, len: nat, s: string)
    requires s in Encode(inputs, len)
    ensures s in Encode(inputs + more, len) && Encode(inputs + more, len)[s] == Encode(inputs, len)[s]
  {
    if more == [] {
      assert inputs + more == inputs;
    } else {
      var before := more[..|more| - 1];
      EncodeKeeps(inputs, before, len, s);
      assert (inputs + more)[..|inputs + more| - 1] == inputs + before;
    }
  }

  lemma {:induction false} DigestIsGood(inputs: seq<string>, len: nat)
    requires 0 < len && |inputs| <= len
    ensures GoodOn(Digest(Encode(inputs, len)), len, inputs)
  {
    var codes := Encode(inputs, len);
    EncodeIsCoded(inputs, len);
    forall s | s in inputs ensures Digest(codes)(s) == codes[s] && |codes[s]| == len {
      assert IsCode(codes[s], |codes|, len);
    }
  }

  lemma {:induction false} SumsAgree(H1: string -> string, H2: string -> string, lists: seq<seq<string>>)
    requires forall i :: 0 <= i < |lists| ==> H1(Text(lists[i])) == H2(Text(lists[i]))
    ensures SumsOf(H1, lists) == SumsOf(H2, lists)
  {
    forall i | 0 <= i < |lists| ensures SumsOf(H1, lists)[i] == SumsOf(H2, lists)[i] {
      assert H1(Text(lists[i])) == H2(Text(lists[i]));
    }
  }

  /** Whatever two sequences of lists are summed, some digest is good on everything hashed for them. */
  lemma {:induction false} SomeHashIsGood(x: seq<seq<string>>, y: seq<seq<string>>)
    returns (H: string -> string, len: nat)
    ensures GoodOn(H, len, Hashed(H, x, y))
  {
    var texts := Texts(x) + Texts(y);
    len := |texts| + 2;
    var first := Digest(Encode(texts, len));
    var tops := [Text(SumsOf(first, x)), Text(SumsOf(first, y))];
    H := Digest(Encode(texts + tops, len));
    TextsIn(x, y);
    EncodeIsCoded(texts, len);
    forall s | s in texts ensures H(s) == first(s) {
      EncodeKeeps(texts, tops, len, s);
    }
    SumsAgree(H, first, x);
    SumsAgree(H, first, y);
    DigestIsGood(texts + tops, len);
  }

  lemma {:induction false} OneHeight(h: nat, hs: seq<string>)
    ensures HeightLists(map[h := hs]) == [hs]
  {
    var m := map[h := hs];
    var r := AscendingNats(m.Keys);
    assert m.Keys == {h};
    assert |r| == 1 && r[0] in r;
  }

  /** The heights themselves are not hashed: the same list at another height has the same sum. */
  lemma {:induction false} HeightsAreNotBound(H: string -> string, h1: nat, h2: nat, hs: seq<string>)
    ensures SumHeights(H, map[h1 := hs]) == SumHeights(H, map[h2 := hs])
  {
    OneHeight(h1, hs);
    OneHeight(h2, hs);
  }

  // ---------- the loops ----------

  /** std::sort on a vector taken by reference. */
  method SortInPlace(v: array<string>)
    modifies v
    ensures v[..] == Sort(old(v[..]))
  {
    var sorted := Sort(v[..]);
    SortSorts(v[..]);
    for i := 0 to v.Length
      invariant v[..i] == sorted[..i]
    {
      v[i] := sorted[i];
    }
  }

  method CalculateSumHeightHash(H: string -> string, blockHashes: array<string>) returns (hash: string)
    modifies blockHashes
    ensures blockHashes[..] == Sort(old(blockHashes[..]))
    ensures hash == SumOf(H, old(blockHashes[..]))
  {
    SortInPlace(blockHashes);
    hash := H(Concat(blockHashes[..]));
  }

  method ToArray(s: seq<string>) returns (v: array<string>)
    ensures fresh(v) && v[..] == s
  {
    v := new string[|s|](i requires 0 <= i < |s| => s[i]);
  }

  method SumEach(H: string -> string, lists: seq<seq<string>>) returns (sums: seq<string>)
    ensures sums == SumsOf(H, lists)
  {
    sums := [];
    for i := 0 to |lists|
      invariant |sums| == i && forall k :: 0 <= k < i ==> sums[k] == SumOf(H, lists[k])
    {
      var copy := ToArray(lists[i]);
      var sumHash := CalculateSumHeightHash(H, copy);
      sums := sums + [sumHash];
    }
  }

  /** Copies of the per-height vectors are summed in height order, then their sums. */
  method SumHeightsHash(H: string -> string, heightBlocks: map<nat, seq<string>>) returns (hash: string)
    ensures hash == SumHeights(H, heightBlocks)
  {
    var sums := SumEach(H, HeightLists(heightBlocks));
    var all := ToArray(sums);
    hash := CalculateSumHeightHash(H, all);
  }

  /** The comparison of one height with a peer's blocks: both vectors are left sorted, and when the sums
      differ the merge over them yields exactly the hashes that are only local. */
  method LocalDifference(H: string -> string, local: array<string>, remote: array<string>)
    returns (differs: bool, diff: seq<string>)
    requires local != remote
    modifies local, remote
    ensures differs <==> SumOf(H, old(local[..])) != SumOf(H, old(remote[..]))
    ensures differs ==> multiset(diff) == multiset(old(local[..])) - multiset(old(remote[..]))
    ensures !differs ==> diff == []
    ensures local[..] == Sort(old(local[..])) && remote[..] == Sort(old(remote[..]))
  {
    SortSorts(local[..]);
    SortSorts(remote[..]);
    var selfSum := CalculateSumHeightHash(H, local);
    var otherSum := CalculateSumHeightHash(H, remote);
    differs := selfSum != otherSum;
    diff := [];
    if differs {
      MergeLoopsExact(local[..], remote[..]);
      diff := Difference(local[..], remote[..]);
    }
  }
}
