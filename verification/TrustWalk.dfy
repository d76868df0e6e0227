/** Accumulated chain trust by walking hash links from the requested block to its chain start. */
module TrustWalk {
  import opened Chain

  /** The records a hash resolves to; an unresolvable hash is absent. */
  type Domain = map<Hash, Record>

  /** The snapshot classifies proof of stake by its stake source, not by the record's flags. */
  function SnapshotTrust(rules: Rules, r: Record): nat {
    rules.blockTrust(r.nBits, r.height, r.prevoutStakeHash != 0, r.hashProof, r.hash)
  }

  /** Every link of the ancestry resolves to the named record, one height lower, within k links. */
  ghost predicate Walkable(dom: Domain, h: Hash, k: nat)
    decreases k
  {
    && h in dom && dom[h].hash == h
    && (dom[h].hashPrev != 0 ==>
          && k > 0
          && Walkable(dom, dom[h].hashPrev, k - 1)
          && dom[dom[h].hashPrev].height == dom[h].height - 1)
  }

  /** Trust accumulated from the chain start up to h, as the derived state accumulates it. */
  ghost function TrustUpTo(rules: Rules, dom: Domain, h: Hash, k: nat): nat
    requires Walkable(dom, h, k)
    decreases k
  {
    ((if dom[h].hashPrev == 0 then 0 else TrustUpTo(rules, dom, dom[h].hashPrev, k - 1))
     + SnapshotTrust(rules, dom[h])) % UINT256
  }

  // ---------------------------------------------------------------- the path walked so far

  /** Each hash names its record, and the next is its parent one height lower. */
  ghost predicate Path(dom: Domain, path: seq<Hash>) {
    && |path| > 0
    && (forall i :: 0 <= i < |path| ==> path[i] in dom && dom[path[i]].hash == path[i])
    && (forall i :: 0 <= i < |path| - 1 ==>
          && dom[path[i]].hashPrev != 0
          && dom[path[i]].hashPrev == path[i + 1]
          && dom[path[i + 1]].height == dom[path[i]].height - 1)
  }

  ghost function PathSum(rules: Rules, dom: Domain, path: seq<Hash>): nat
    requires forall i :: 0 <= i < |path| ==> path[i] in dom
  {
    if path == [] then 0 else SnapshotTrust(rules, dom[path[0]]) + PathSum(rules, dom, path[1..])
  }

  lemma {:induction false} PathSumAppend(rules: Rules, dom: Domain, path: seq<Hash>, h: Hash)
    requires (forall i :: 0 <= i < |path| ==> path[i] in dom) && h in dom
    ensures forall i :: 0 <= i < |path + [h]| ==> (path + [h])[i] in dom
    ensures PathSum(rules, dom, path + [h]) == PathSum(rules, dom, path) + SnapshotTrust(rules, dom[h])
  {
    if path == [] {
      assert path + [h] == [h];
      assert [h][1..] == [];
    } else {
      assert (path + [h])[1..] == path[1..] + [h];
      PathSumAppend(rules, dom, path[1..], h);
    }
  }

  lemma AddMod(a: nat, b: nat)
    ensures (a % UINT256 + b) % UINT256 == (a + b) % UINT256
  {
  }

  /** A completed path sums, modulo 2^256, to the trust accumulated from the chain start. */
  lemma {:induction false} CompletePathTrust(rules: Rules, dom: Domain, path: seq<Hash>)
    requires Path(dom, path) && dom[path[|path| - 1]].hashPrev == 0
    ensures Walkable(dom, path[0], |path| - 1)
    ensures TrustUpTo(rules, dom, path[0], |path| - 1) == PathSum(rules, dom, path) % UINT256
    decreases |path|
  {
    if |path| > 1 {
      assert Path(dom, path[1..]);
      CompletePathTrust(rules, dom, path[1..]);
      AddMod(PathSum(rules, dom, path[1..]), SnapshotTrust(rules, dom[path[0]]));
    } else {
      assert path[1..] == [];
    }
  }

  /** Whatever can be walked from the start can be walked from any point of the path. */
  lemma {:induction false} WalkableAlong(dom: Domain, path: seq<Hash>, k: nat)
    requires Path(dom, path) && Walkable(dom, path[0], k)
    ensures |path| - 1 <= k && Walkable(dom, path[|path| - 1], k - (|path| - 1))
    decreases |path|
  {
    if |path| > 1 {
      assert Path(dom, path[1..]);
      WalkableAlong(dom, path[1..], k - 1);
    }
  }

  ghost predicate Resolves(dom: Domain, h: Hash) {
    exists k: nat :: Walkable(dom, h, k)
  }

  /** The next link of the ancestry is there and one height lower. */
  ghost predicate LinkSound(dom: Domain, h: Hash)
    requires h in dom
  {
    var p := dom[h].hashPrev;
    p in dom && dom[p].hash == p && dom[p].height == dom[h].height - 1
  }

  lemma BadLinkUnresolvable(dom: Domain, path: seq<Hash>)
    requires Path(dom, path) && dom[path[|path| - 1]].hashPrev != 0 && !LinkSound(dom, path[|path| - 1])
    ensures !Resolves(dom, path[0])
  {
    if Resolves(dom, path[0]) {
      var k: nat :| Walkable(dom, path[0], k);
      WalkableAlong(dom, path, k);
    }
  }

  ghost function Lower(dom: Domain, height: int): set<Hash> {
    set g | g in dom && dom[g].height < height
  }

  /**
   GetAuthoritativeAccumulatedChainTrust.  It stops on every finite domain because heights fall at
   each step; it succeeds exactly when the whole ancestry resolves.
   */
  method AccumulatedChainTrust(rules: Rules, dom: Domain, h: Hash) returns (ok: bool, total: nat)
    ensures ok <==> Resolves(dom, h) && dom[h].height >= 0
    ensures ok ==> forall k: nat :: Walkable(dom, h, k) ==> total == TrustUpTo(rules, dom, h, k)
    ensures !ok ==> total == 0
  {
    total := 0;
    if h !in dom || dom[h].hash != h || dom[h].height < 0 {
      assert forall k: nat :: Walkable(dom, h, k) ==> h in dom && dom[h].hash == h;
      return false, 0;
    }
    var cur := dom[h];
    var acc := SnapshotTrust(rules, cur) % UINT256;
    ghost var path := [h];
    assert PathSum(rules, dom, path) == SnapshotTrust(rules, cur) by { assert path[1..] == []; }
    while cur.hashPrev != 0
      invariant Path(dom, path) && path[0] == h && dom[path[|path| - 1]] == cur
      invariant acc == PathSum(rules, dom, path) % UINT256
      decreases Lower(dom, cur.height)
    {
      var p := cur.hashPrev;
      if p !in dom || dom[p].hash != p || dom[p].height != cur.height - 1 {
        BadLinkUnresolvable(dom, path);
        return false, 0;
      }
      var parent := dom[p];
      assert p in Lower(dom, cur.height) && p !in Lower(dom, parent.height);
      PathSumAppend(rules, dom, path, p);
      AddMod(PathSum(rules, dom, path), SnapshotTrust(rules, parent));
      path := path + [p];
      cur := parent;
      acc := (acc + SnapshotTrust(rules, cur)) % UINT256;
    }
    CompletePathTrust(rules, dom, path);
    forall k: nat | Walkable(dom, h, k) ensures acc == TrustUpTo(rules, dom, h, k) {
      TrustSteady(rules, dom, h, |path| - 1, k);
    }
    return true, acc;
  }

  lemma {:induction false} TrustSteady(rules: Rules, dom: Domain, h: Hash, j: nat, k: nat)
    requires Walkable(dom, h, j) && Walkable(dom, h, k)
    ensures TrustUpTo(rules, dom, h, j) == TrustUpTo(rules, dom, h, k)
    decreases j
  {
    if dom[h].hashPrev != 0 {
      TrustSteady(rules, dom, dom[h].hashPrev, j - 1, k - 1);
    }
  }

  // ---------------------------------------------------------------- agreement with the derived state

  /** The domain resolves each stored hash to its stored record. */
  ghost predicate Resolving(s: Store, n: nat, dom: Domain) {
    forall id :: 1 <= id <= n ==> Rec(s, id).hash in dom && dom[Rec(s, id).hash] == Rec(s, id)
  }

  /** On records of consistent classification the walk returns the derived entry's chain trust. */
  lemma {:induction false} WalkEqualsDerivedTrust(rules: Rules, s: Store, n: nat, dom: Domain, id: Id, j: nat, k: nat)
    requires UniqueHashes(s, n) && Resolving(s, n, dom)
    requires forall i :: 1 <= i <= n ==> PosClassificationConsistent(Rec(s, i))
    requires Grounded(s, n, id, j) && Walkable(dom, Rec(s, id).hash, k)
    ensures TrustUpTo(rules, dom, Rec(s, id).hash, k) == Value(rules, s, n, id, j).trust
    decreases j
  {
    assert PosClassificationConsistent(Rec(s, id));
    if !IsRoot(s, id) {
      var p := ParentId(s, n, id);
      assert Grounded(s, n, p, j - 1);
      assert Holds(s, n, Rec(s, id).hashPrev, p);
      WalkEqualsDerivedTrust(rules, s, n, dom, p, j - 1, k - 1);
    }
  }
}
