/** Saving a block and, recursively, the pending blocks that waited for it (ca/block_helper.cpp:
    SaveBlock, PostSaveProcess, AddPendingBlock). Whether verification and the store accept a block
    is an abstract verdict. */
module OrphanCascade {
  import opened Ledger

  datatype Verdict = Accept | TopUnreadable | PreSaveFails | MissingUtxos | SaveFails | CommitFails

  /** Height to previous hash to the waiting blocks, in order of arrival. */
  type Pending = map<nat, map<string, seq<Block>>>

  /** The committed blocks by hash, the store's top, and the hashes in order of commit. */
  datatype Store = Store(saved: map<string, Block>, top: nat, log: seq<string>)

  ghost predicate WellFormed(p: Pending) {
    forall h, k, c :: h in p && k in p[h] && c in p[h][k] ==> c.height == h && c.prevHash == k
  }

  /** The pending blocks that link to b at the next height. */
  function Children(p: Pending, b: Block): seq<Block> {
    if b.height + 1 in p && b.hash in p[b.height + 1] then p[b.height + 1][b.hash] else []
  }

  /** The pending heights a cascade at height h can still reach. */
  function Above(p: Pending, h: nat): set<nat> {
    set k | k in p && k > h
  }

  function Commit(s: Store, b: Block): Store {
    Store(s.saved[b.hash := b], if b.height > s.top then b.height else s.top, s.log + [b.hash])
  }

  /** Why a block is not committed now; 0 when it is committed or already there. */
  function RefusalCode(s: Store, v: Block -> Verdict, b: Block): int {
    if v(b).TopUnreadable? then -3
    else if b.height >= s.top + 2 then -4
    else if b.hash in s.saved then 0
    else if v(b).PreSaveFails? then -5
    else if b.prevHash !in s.saved then -6
    else if v(b).MissingUtxos? then -7
    else if v(b).SaveFails? then -8
    else if v(b).CommitFails? then -9
    else 0
  }

  predicate Commits(s: Store, v: Block -> Verdict, b: Block) {
    b.hash !in s.saved && RefusalCode(s, v, b) == 0
  }

  function Save(s: Store, p: Pending, v: Block -> Verdict, b: Block): Store
    requires WellFormed(p)
    decreases Above(p, b.height), 0, 1
  {
    if Commits(s, v, b) then PostSave(Commit(s, b), p, v, b) else s
  }

  /** Retry the children of a block just committed. */
  function PostSave(s: Store, p: Pending, v: Block -> Verdict, b: Block): Store
    requires WellFormed(p)
    decreases Above(p, b.height), 0, 0
  {
    var cs := Children(p, b);
    if cs == [] then s
    else
      assert b.height + 1 in Above(p, b.height) && b.height + 1 !in Above(p, b.height + 1);
      SaveAll(s, p, v, cs, b.height + 1)
  }

  function SaveAll(s: Store, p: Pending, v: Block -> Verdict, cs: seq<Block>, h: nat): Store
    requires WellFormed(p) && forall c :: c in cs ==> c.height == h
    decreases Above(p, h), 1, |cs|
  {
    if cs == [] then s
    else Save(SaveAll(s, p, v, cs[..|cs| - 1], h), p, v, cs[|cs| - 1])
  }

  // ---------- what a cascade leaves behind ----------

  /** Every committed block is filed under its hash, below the top, and has its parent committed. */
  ghost predicate Good(s: Store) {
    && (forall x :: x in s.saved ==> s.saved[x].hash == x && s.saved[x].height <= s.top)
    && (forall x :: x in s.saved && s.saved[x].height > 0 ==> s.saved[x].prevHash in s.saved)
    && (forall x :: x in s.log ==> x in s.saved)
    && (forall i, j :: 0 <= i < j < |s.log| ==> s.log[i] != s.log[j])
  }

  /** Blocks are identified by their hashes. */
  ghost predicate HashesIdentify(s: Store, p: Pending, b: Block) {
    forall x, y :: Known(s, p, b, x) && Known(s, p, b, y) && x.hash == y.hash ==> x == y
  }

  ghost predicate Known(s: Store, p: Pending, b: Block, x: Block) {
    x == b || IsPending(p, x) || (x.hash in s.saved && s.saved[x.hash] == x)
  }

  ghost predicate IsPending(p: Pending, x: Block) {
    x.height in p && x.prevHash in p[x.height] && x in p[x.height][x.prevHash]
  }

  /** t extends s by blocks from the pool or from the given start hashes: each new block is logged
      once, was accepted, and either is a start block or waited for another new block; the accepted
      children of every new block are committed too. */
  ghost predicate Extends(s: Store, t: Store, p: Pending, v: Block -> Verdict, starts: seq<Block>) {
    && (forall x :: x in s.saved ==> x in t.saved && t.saved[x] == s.saved[x])
    && s.log <= t.log
    && (forall x :: x in t.log[|s.log|..] <==> x in t.saved && x !in s.saved)
    && (forall x :: x in t.saved && x !in s.saved ==> NewIsDue(s, t, p, v, starts, x))
    && (forall x :: x in t.saved && x !in s.saved ==> ChildrenSaved(t, p, v, t.saved[x]))
  }

  ghost predicate NewIsDue(s: Store, t: Store, p: Pending, v: Block -> Verdict, starts: seq<Block>, x: string)
    requires x in t.saved
  {
    var c := t.saved[x];
    && v(c).Accept?
    && (c in starts || (c.prevHash in t.saved && c.prevHash !in s.saved && c in Children(p, t.saved[c.prevHash])))
  }

  ghost predicate ChildrenSaved(t: Store, p: Pending, v: Block -> Verdict, b: Block) {
    forall c :: c in Children(p, b) && v(c).Accept? ==> c.hash in t.saved
  }

  ghost predicate Linked(cs: seq<Block>, parent: Block) {
    forall c :: c in cs ==> c.height == parent.height + 1 && c.prevHash == parent.hash
  }

  lemma {:induction false} ChildrenLinked(p: Pending, b: Block)
    requires WellFormed(p)
    ensures Linked(Children(p, b), b)
  {
  }

  lemma {:induction false} ChildIsPending(p: Pending, b: Block, c: Block)
    requires WellFormed(p) && c in Children(p, b)
    ensures IsPending(p, c) && c.height == b.height + 1 && c.prevHash == b.hash
  {
  }

  lemma {:induction false} CommitKeepsGood(s: Store, v: Block -> Verdict, b: Block)
    requires Good(s) && Commits(s, v, b)
    ensures Good(Commit(s, b))
  {
  }

  lemma {:induction false} ExtendsItself(s: Store, p: Pending, v: Block -> Verdict, starts: seq<Block>)
    ensures Extends(s, s, p, v, starts)
  {
  }

  /** One more sibling after the first ones. */
  lemma {:induction false} ExtendsThen(s: Store, t: Store, u: Store, p: Pending, v: Block -> Verdict,
                                       starts: seq<Block>, b: Block)
    requires Extends(s, t, p, v, starts) && Extends(t, u, p, v, [b])
    ensures Extends(s, u, p, v, starts + [b])
  {
    assert u.log[|s.log|..] == t.log[|s.log|..] + u.log[|t.log|..];
    forall x | x in u.saved && x !in s.saved
      ensures NewIsDue(s, u, p, v, starts + [b], x) && ChildrenSaved(u, p, v, u.saved[x])
    {
      if x in t.saved {
        assert NewIsDue(s, t, p, v, starts, x) && ChildrenSaved(t, p, v, t.saved[x]);
      } else {
        assert NewIsDue(t, u, p, v, [b], x) && ChildrenSaved(u, p, v, u.saved[x]);
      }
    }
  }

  /** The start block itself is due, and its children are saved. */
  lemma {:induction false} StartIsDue(s: Store, u: Store, p: Pending, v: Block -> Verdict, b: Block)
    requires Commits(s, v, b) && b.hash in u.saved && u.saved[b.hash] == b
    requires forall c :: c in Children(p, b) && v(c).Accept? ==> c.hash in u.saved
    ensures NewIsDue(s, u, p, v, [b], b.hash) && ChildrenSaved(u, p, v, u.saved[b.hash])
  {
  }

  /** A block that is due after the start block was committed is due from the start block. */
  lemma {:induction false} LaterIsDue(s: Store, t: Store, u: Store, p: Pending, v: Block -> Verdict, b: Block,
                                      x: string)
    requires WellFormed(p) && t == Commit(s, b) && x in u.saved && NewIsDue(t, u, p, v, Children(p, b), x)
    requires b.hash in u.saved && u.saved[b.hash] == b && b.hash !in s.saved
    ensures NewIsDue(s, u, p, v, [b], x)
  {
    ChildrenLinked(p, b);
  }

  lemma {:induction false} LogAfterCommit(s: Store, u: Store, b: Block)
    requires Commit(s, b).log <= u.log
    ensures s.log <= u.log && u.log[|s.log|..] == [b.hash] + u.log[|s.log| + 1..]
  {
    assert u.log[|s.log|] == Commit(s, b).log[|s.log|];
  }

  /** The block itself, followed by the cascade over its children. */
  lemma {:induction false} ExtendsAfterCommit(s: Store, u: Store, p: Pending, v: Block -> Verdict, b: Block)
    requires WellFormed(p) && Commits(s, v, b) && Extends(Commit(s, b), u, p, v, Children(p, b))
    requires forall c :: c in Children(p, b) && v(c).Accept? ==> c.hash in u.saved
    ensures Extends(s, u, p, v, [b])
  {
    var t := Commit(s, b);
    LogAfterCommit(s, u, b);
    assert b.hash in t.saved && u.saved[b.hash] == b;
    forall x | x in u.saved && x !in s.saved
      ensures NewIsDue(s, u, p, v, [b], x) && ChildrenSaved(u, p, v, u.saved[x])
    {
      if x == b.hash {
        StartIsDue(s, u, p, v, b);
      } else {
        LaterIsDue(s, t, u, p, v, b, x);
      }
    }
  }

  /** A cascade extends the store by accepted, linked blocks, completely, and keeps the store good. */
  lemma {:induction false} SaveExtends(s: Store, p: Pending, v: Block -> Verdict, b: Block)
    requires WellFormed(p) && Good(s)
    ensures Good(Save(s, p, v, b)) && Extends(s, Save(s, p, v, b), p, v, [b])
    ensures Commits(s, v, b) ==> b.hash in Save(s, p, v, b).saved
    ensures s.top <= Save(s, p, v, b).top
    decreases Above(p, b.height), 0, 1
  {
    if Commits(s, v, b) {
      CommitKeepsGood(s, v, b);
      var t := PostSave(Commit(s, b), p, v, b);
      PostSaveExtends(Commit(s, b), p, v, b, t);
      ExtendsAfterCommit(s, t, p, v, b);
    } else {
      ExtendsItself(s, p, v, [b]);
    }
  }

  lemma {:induction false} PostSaveIsSaveAll(s: Store, p: Pending, v: Block -> Verdict, b: Block)
    requires WellFormed(p) && Children(p, b) != []
    ensures Linked(Children(p, b), b) && PostSave(s, p, v, b) == SaveAll(s, p, v, Children(p, b), b.height + 1)
    ensures b.height + 1 in Above(p, b.height) && b.height + 1 !in Above(p, b.height + 1)
  {
    ChildrenLinked(p, b);
  }

  lemma {:induction false} PostSaveExtends(s: Store, p: Pending, v: Block -> Verdict, b: Block, t: Store)
    requires WellFormed(p) && Good(s) && b.hash in s.saved && b.height <= s.top
    requires t == PostSave(s, p, v, b)
    ensures Good(t) && Extends(s, t, p, v, Children(p, b)) && s.top <= t.top
    ensures forall c :: c in Children(p, b) && v(c).Accept? ==> c.hash in t.saved
    decreases Above(p, b.height), 0, 0
  {
    var cs := Children(p, b);
    if cs == [] {
      ExtendsItself(s, p, v, cs);
    } else {
      PostSaveIsSaveAll(s, p, v, b);
      SaveAllExtends(s, p, v, cs, b, t);
    }
  }

  /** An accepted block whose parent is committed is committed by its turn at the latest. */
  lemma {:induction false} SaveSavesAccepted(s: Store, p: Pending, v: Block -> Verdict, parent: Block, c: Block)
    requires WellFormed(p) && parent.hash in s.saved && parent.height <= s.top
    requires c.height == parent.height + 1 && c.prevHash == parent.hash && v(c).Accept?
    ensures c.hash in s.saved || Commits(s, v, c)
  {
  }

  lemma {:induction false} EarlierStaySaved(before: Store, t: Store, p: Pending, v: Block -> Verdict,
                                            init: seq<Block>, last: Block)
    requires Extends(before, t, p, v, [last])
    requires forall c :: c in init && v(c).Accept? ==> c.hash in before.saved
    ensures forall c :: c in init && v(c).Accept? ==> c.hash in t.saved
  {
  }

  lemma {:induction false} SaveAllExtends(s: Store, p: Pending, v: Block -> Verdict, cs: seq<Block>, parent: Block,
                                          t: Store)
    requires WellFormed(p) && Good(s) && parent.hash in s.saved && parent.height <= s.top
    requires Linked(cs, parent)
    requires t == SaveAll(s, p, v, cs, parent.height + 1)
    ensures Good(t) && Extends(s, t, p, v, cs) && s.top <= t.top
    ensures forall c :: c in cs && v(c).Accept? ==> c.hash in t.saved
    decreases Above(p, parent.height + 1), 1, |cs|
  {
    if cs == [] {
      ExtendsItself(s, p, v, cs);
    } else {
      var init, last := cs[..|cs| - 1], cs[|cs| - 1];
      assert cs == init + [last];
      var before := SaveAll(s, p, v, init, parent.height + 1);
      SaveAllExtends(s, p, v, init, parent, before);
      SaveExtends(before, p, v, last);
      if v(last).Accept? { SaveSavesAccepted(before, p, v, parent, last); }
      ExtendsThen(s, before, t, p, v, init, last);
      EarlierStaySaved(before, t, p, v, init, last);
    }
  }

  // ---------- exactly the reachable blocks ----------

  /** c is filed as pending, one above b and with b's hash as its previous one. */
  ghost predicate WaitsFor(p: Pending, c: Block, b: Block) {
    IsPending(p, c) && c.height == b.height + 1 && c.prevHash == b.hash
  }

  lemma {:induction false} ChildIffWaits(p: Pending, b: Block, c: Block)
    requires WellFormed(p)
    ensures c in Children(p, b) <==> WaitsFor(p, c, b)
  {
    if c in Children(p, b) { ChildIsPending(p, b, c); }
  }

  /** A chain of accepted blocks not yet in the store: it starts with b and each next block waited for the
      previous one. */
  ghost predicate Chain(s: Store, p: Pending, v: Block -> Verdict, b: Block, path: seq<Block>) {
    && path != [] && path[0] == b
    && (forall i :: 0 <= i < |path| ==> v(path[i]).Accept? && path[i].hash !in s.saved)
    && (forall i :: 0 <= i < |path| - 1 ==> WaitsFor(p, path[i + 1], path[i]))
  }

  ghost predicate Reached(s: Store, p: Pending, v: Block -> Verdict, b: Block, x: string) {
    exists path: seq<Block> :: Chain(s, p, v, b, path) && path[|path| - 1].hash == x
  }

  /** A committed block lies on a chain from b. */
  lemma {:induction false} NewIsReached(s: Store, t: Store, p: Pending, v: Block -> Verdict, b: Block, x: string)
    requires WellFormed(p) && HashesIdentify(s, p, b) && Good(t) && Extends(s, t, p, v, [b]) && b.hash in t.saved
    requires x in t.saved && x !in s.saved
    ensures Reached(s, p, v, b, x)
    decreases t.saved[x].height
  {
    var c := t.saved[x];
    assert NewIsDue(s, t, p, v, [b], x);
    if c == b {
      assert Chain(s, p, v, b, [b]) && [b][|[b]| - 1].hash == x;
    } else {
      var d := t.saved[c.prevHash];
      ChildIsPending(p, d, c);
      ChildIffWaits(p, d, c);
      NewIsReached(s, t, p, v, b, c.prevHash);
      var path: seq<Block> :| Chain(s, p, v, b, path) && path[|path| - 1].hash == c.prevHash;
      ChainEndIsSaved(s, t, p, v, b, path);
      ChainGrows(s, p, v, b, path, c);
    }
  }

  lemma {:induction false} ChainGrows(s: Store, p: Pending, v: Block -> Verdict, b: Block, path: seq<Block>, c: Block)
    requires Chain(s, p, v, b, path) && WaitsFor(p, c, path[|path| - 1]) && v(c).Accept? && c.hash !in s.saved
    ensures Reached(s, p, v, b, c.hash)
  {
    var longer := path + [c];
    assert Chain(s, p, v, b, longer) && longer[|longer| - 1].hash == c.hash;
  }

  /** The end of every chain from b is committed, as that very block. */
  lemma {:induction false} ChainEndIsSaved(s: Store, t: Store, p: Pending, v: Block -> Verdict, b: Block,
                                           path: seq<Block>)
    requires WellFormed(p) && HashesIdentify(s, p, b) && Good(t) && Extends(s, t, p, v, [b]) && b.hash in t.saved
    requires Chain(s, p, v, b, path)
    ensures path[|path| - 1].hash in t.saved && t.saved[path[|path| - 1].hash] == path[|path| - 1]
  {
    var c := path[|path| - 1];
    if |path| > 1 {
      var init := path[..|path| - 1];
      assert Chain(s, p, v, b, init);
      ChainEndIsSaved(s, t, p, v, b, init);
      ChildIffWaits(p, init[|init| - 1], c);
      assert ChildrenSaved(t, p, v, init[|init| - 1]);
    }
    NewIsKnown(s, t, p, v, b, c.hash);
    assert Known(s, p, b, c);
  }

  lemma {:induction false} NewIsKnown(s: Store, t: Store, p: Pending, v: Block -> Verdict, b: Block, x: string)
    requires WellFormed(p) && Good(t) && Extends(s, t, p, v, [b]) && x in t.saved && x !in s.saved
    ensures Known(s, p, b, t.saved[x]) && t.saved[x].hash == x
  {
    var c := t.saved[x];
    assert NewIsDue(s, t, p, v, [b], x);
    if c !in [b] {
      ChildIsPending(p, t.saved[c.prevHash], c);
    }
  }

  /** Saving a block that is committed saves exactly the accepted pending blocks reached from it by
      previous-hash links at consecutive heights, each once; the store stays parent-closed. */
  lemma {:induction false} CascadeIsExact(s: Store, p: Pending, v: Block -> Verdict, b: Block)
    requires WellFormed(p) && Good(s) && HashesIdentify(s, p, b) && Commits(s, v, b)
    ensures var t := Save(s, p, v, b);
      && Good(t)
      && (forall x :: x in t.saved <==> x in s.saved || Reached(s, p, v, b, x))
      && s.log <= t.log && (forall x :: x in t.log[|s.log|..] <==> Reached(s, p, v, b, x))
  {
    var t := Save(s, p, v, b);
    SaveExtends(s, p, v, b);
    forall x | x in t.saved && x !in s.saved ensures Reached(s, p, v, b, x) {
      NewIsReached(s, t, p, v, b, x);
    }
    forall x | Reached(s, p, v, b, x) ensures x in t.saved && x !in s.saved {
      var path: seq<Block> :| Chain(s, p, v, b, path) && path[|path| - 1].hash == x;
      ChainEndIsSaved(s, t, p, v, b, path);
    }
  }

  /** A block is refused or found with code 0 exactly when the top can be read and the block lies at most one above
      it, and it is already there, or is accepted and its parent is there. */
  lemma {:induction false} CodeZeroIff(s: Store, v: Block -> Verdict, b: Block)
    ensures RefusalCode(s, v, b) == 0 <==>
      && !v(b).TopUnreadable? && b.height <= s.top + 1
      && (b.hash in s.saved || (v(b).Accept? && b.prevHash in s.saved))
  {
  }

  /** What the other codes say; each supposes that none before it applies. */
  lemma {:induction false} CodesMean(s: Store, v: Block -> Verdict, b: Block)
    ensures RefusalCode(s, v, b) == -3 <==> v(b).TopUnreadable?
    ensures RefusalCode(s, v, b) == -4 <==> !v(b).TopUnreadable? && b.height > s.top + 1
    ensures !v(b).TopUnreadable? && b.height <= s.top + 1 && b.hash !in s.saved ==>
      && (RefusalCode(s, v, b) == -5 <==> v(b).PreSaveFails?)
      && (RefusalCode(s, v, b) == -6 <==> !v(b).PreSaveFails? && b.prevHash !in s.saved)
      && (b.prevHash in s.saved ==>
           && (RefusalCode(s, v, b) == -7 <==> v(b).MissingUtxos?)
           && (RefusalCode(s, v, b) == -8 <==> v(b).SaveFails?)
           && (RefusalCode(s, v, b) == -9 <==> v(b).CommitFails?))
  {
  }

  /** The top is the one from before, or the height of a block committed since. */
  ghost predicate TopFrom(s: Store, t: Store) {
    && (forall x :: x in s.saved ==> x in t.saved && t.saved[x] == s.saved[x])
    && (t.top == s.top || exists x :: x in t.saved && x !in s.saved && t.saved[x].height == t.top)
  }

  lemma {:induction false} TopThen(s: Store, t: Store, u: Store)
    requires TopFrom(s, t) && TopFrom(t, u)
    ensures TopFrom(s, u)
  {
    if u.top == t.top && t.top != s.top {
      var x :| x in t.saved && x !in s.saved && t.saved[x].height == t.top;
      assert x in u.saved && u.saved[x].height == u.top;
    }
  }

  lemma {:induction false} CommitTop(s: Store, b: Block)
    requires b.hash !in s.saved
    ensures TopFrom(s, Commit(s, b))
  {
    assert b.hash in Commit(s, b).saved;
  }

  lemma {:induction false} SaveTop(s: Store, p: Pending, v: Block -> Verdict, b: Block)
    requires WellFormed(p)
    ensures TopFrom(s, Save(s, p, v, b))
    decreases Above(p, b.height), 0, 1
  {
    if Commits(s, v, b) {
      CommitTop(s, b);
      PostSaveTop(Commit(s, b), p, v, b);
      TopThen(s, Commit(s, b), Save(s, p, v, b));
    }
  }

  lemma {:induction false} PostSaveTop(s: Store, p: Pending, v: Block -> Verdict, b: Block)
    requires WellFormed(p)
    ensures TopFrom(s, PostSave(s, p, v, b))
    decreases Above(p, b.height), 0, 0
  {
    if Children(p, b) != [] {
      PostSaveIsSaveAll(s, p, v, b);
      SaveAllTop(s, p, v, Children(p, b), b.height + 1);
    }
  }

  lemma {:induction false} SaveAllTop(s: Store, p: Pending, v: Block -> Verdict, cs: seq<Block>, h: nat)
    requires WellFormed(p) && forall c :: c in cs ==> c.height == h
    ensures TopFrom(s, SaveAll(s, p, v, cs, h))
    decreases Above(p, h), 1, |cs|
  {
    if cs != [] {
      var before := SaveAll(s, p, v, cs[..|cs| - 1], h);
      SaveAllTop(s, p, v, cs[..|cs| - 1], h);
      SaveTop(before, p, v, cs[|cs| - 1]);
      TopThen(s, before, SaveAll(s, p, v, cs, h));
    }
  }

  /** Saving any block: when it is new, accepted, at most one above the top and its parent is there, exactly the ends
      of the chains from it are committed, as themselves, and the top becomes the greatest height; otherwise nothing
      changes. */
  lemma {:induction false} SaveIsExact(s: Store, p: Pending, v: Block -> Verdict, b: Block)
    requires WellFormed(p) && Good(s) && HashesIdentify(s, p, b)
    ensures var t := Save(s, p, v, b);
      if b.hash !in s.saved && v(b).Accept? && b.height <= s.top + 1 && b.prevHash in s.saved then
        && (forall x :: x in t.saved <==> x in s.saved || Reached(s, p, v, b, x))
        && (forall x :: x in s.saved ==> x in t.saved && t.saved[x] == s.saved[x])
        && (forall path: seq<Block> :: Chain(s, p, v, b, path) ==>
             path[|path| - 1].hash in t.saved && t.saved[path[|path| - 1].hash] == path[|path| - 1])
        && (forall x :: x in t.saved ==> t.saved[x].height <= t.top)
        && (t.top == s.top || exists x :: x in t.saved && x !in s.saved && t.saved[x].height == t.top)
      else t == s
  {
    CodeZeroIff(s, v, b);
    if Commits(s, v, b) {
      var t := Save(s, p, v, b);
      CascadeIsExact(s, p, v, b);
      SaveExtends(s, p, v, b);
      SaveTop(s, p, v, b);
      forall path: seq<Block> | Chain(s, p, v, b, path)
        ensures path[|path| - 1].hash in t.saved && t.saved[path[|path| - 1].hash] == path[|path| - 1]
      {
        ChainEndIsSaved(s, t, p, v, b, path);
      }
    }
  }

  // ---------- the class ----------

  class BlockHelper {
    var pendingBlocks: Pending
    var saved: map<string, Block>
    var top: nat
    ghost var log: seq<string>

    ghost function View(): Store
      reads this
    {
      Store(saved, top, log)
    }

    ghost predicate Valid()
      reads this
    {
      WellFormed(pendingBlocks) && Good(View())
    }

    constructor (genesis: Block)
      requires genesis.height == 0
      ensures Valid() && pendingBlocks == map[] && View() == Store(map[genesis.hash := genesis], 0, [])
    {
      pendingBlocks, saved, top, log := map[], map[genesis.hash := genesis], 0, [];
    }

    /** Files a block whose parent is missing, unless a thousand heights are already waiting;
        asks for the parent when the block is close to the top. */
    method AddPendingBlock(block: Block) returns (requested: bool)
      requires Valid()
      modifies this`pendingBlocks
      ensures Valid()
      ensures requested <==> block.height <= top + 3
      ensures |old(pendingBlocks)| >= 1000 ==> pendingBlocks == old(pendingBlocks)
      ensures |old(pendingBlocks)| < 1000 ==>
        forall x :: IsPending(pendingBlocks, x) <==> x == block || IsPending(old(pendingBlocks), x)
      ensures |old(pendingBlocks)| < 1000 ==>
        var waiting := if block.height in old(pendingBlocks) && block.prevHash in old(pendingBlocks)[block.height]
                       then old(pendingBlocks)[block.height][block.prevHash] else [];
        && block.height in pendingBlocks && block.prevHash in pendingBlocks[block.height]
        && pendingBlocks[block.height][block.prevHash] == waiting + [block]
    {
      if |pendingBlocks| < 1000 {
        var atHeight := if block.height in pendingBlocks then pendingBlocks[block.height] else map[];
        var waiting := if block.prevHash in atHeight then atHeight[block.prevHash] else [];
        pendingBlocks := pendingBlocks[block.height := atHeight[block.prevHash := waiting + [block]]];
      }
      if block.height > top + 3 {
        return false;
      }
      return true;
    }

    method SaveBlock(block: Block, verdict: Block -> Verdict) returns (ret: int)
      requires Valid()
      modifies this`saved, this`top, this`log
      ensures Valid() && View() == Save(old(View()), pendingBlocks, verdict, block)
      ensures ret == RefusalCode(old(View()), verdict, block)
      decreases Above(pendingBlocks, block.height), 0, 1
    {
      if verdict(block).TopUnreadable? {
        return -3;
      }
      if block.height >= top + 2 {
        return -4;
      }
      if block.hash in saved {
        return 0;
      }
      if verdict(block).PreSaveFails? {
        return -5;
      }
      if block.prevHash !in saved {
        return -6;
      }
      if verdict(block).MissingUtxos? {
        return -7;
      }
      if verdict(block).SaveFails? {
        return -8;
      }
      if verdict(block).CommitFails? {
        return -9;
      }
      CommitKeepsGood(View(), verdict, block);
      saved := saved[block.hash := block];
      top := if block.height > top then block.height else top;
      log := log + [block.hash];
      PostSaveProcess(block, verdict);
      return 0;
    }

    /** Retry every pending block filed under this hash at the next height. */
    method PostSaveProcess(block: Block, verdict: Block -> Verdict)
      requires Valid()
      modifies this`saved, this`top, this`log
      ensures Valid()
      ensures View() == PostSave(old(View()), pendingBlocks, verdict, block)
      decreases Above(pendingBlocks, block.height), 0, 0
    {
      if block.height + 1 in pendingBlocks && block.hash in pendingBlocks[block.height + 1] {
        assert block.height + 1 in Above(pendingBlocks, block.height)
          && block.height + 1 !in Above(pendingBlocks, block.height + 1);
        var waiting := pendingBlocks[block.height + 1][block.hash];
        SaveEach(waiting, block.height + 1, verdict);
      }
    }

    method SaveEach(waiting: seq<Block>, height: nat, verdict: Block -> Verdict)
      requires Valid() && forall c :: c in waiting ==> c.height == height
      modifies this`saved, this`top, this`log
      ensures Valid() && View() == SaveAll(old(View()), pendingBlocks, verdict, waiting, height)
      decreases Above(pendingBlocks, height), 1, 0
    {
      for i := 0 to |waiting|
        invariant Valid()
        invariant View() == SaveAll(old(View()), pendingBlocks, verdict, waiting[..i], height)
      {
        assert waiting[..i + 1][..i] == waiting[..i];
        var ret := SaveBlock(waiting[i], verdict);
      }
      assert waiting[..|waiting|] == waiting;
    }
  }
}
