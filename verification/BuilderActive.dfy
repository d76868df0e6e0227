/** The active chain of an in-memory build: the ancestry of the best block, laid out by height. */
module BuilderActive {
  import opened Options
  import opened Chain
  import opened ExternalSort
  import opened Iteration
  import opened BuilderRows
  import DerivedReplay

  // ---------------------------------------------------------------- records by hash

  ghost predicate Names(s: Store, hashes: map<Hash, Id>, count: nat) {
    && (forall h :: h in hashes ==> 1 <= hashes[h] <= count && Rec(s, hashes[h]).hash == h)
    && (forall id :: 1 <= id <= count ==> Rec(s, id).hash in hashes)
  }

  /** The hashes in use, refusing a duplicate. */
  method CollectHashes(recs: seq<Record>) returns (ok: bool, seen: map<Hash, Id>)
    ensures ok <==> UniqueHashes(StoreOf(recs), |recs|)
    ensures ok ==> Names(StoreOf(recs), seen, |recs|)
  {
    ghost var s := StoreOf(recs);
    seen := map[];
    var i := 0;
    while i < |recs|
      invariant 0 <= i <= |recs|
      invariant Names(s, seen, i)
      invariant UniqueHashes(s, i)
    {
      assert Rec(s, i + 1) == recs[i];
      if recs[i].hash in seen {
        assert Rec(s, seen[recs[i].hash]).hash == Rec(s, i + 1).hash;
        return false, seen;
      }
      forall a | 1 <= a <= i ensures Rec(s, a).hash != Rec(s, i + 1).hash { assert Rec(s, a).hash in seen; }
      seen := seen[recs[i].hash := i + 1];
      i := i + 1;
    }
    ok := true;
  }

  /** A hash is on file exactly if some record has it. */
  lemma NamesExact(s: Store, n: nat, seen: map<Hash, Id>, h: Hash)
    requires Names(s, seen, n)
    ensures h in seen <==> IdOf(s, n, h) != 0
  {
    if h in seen { assert Holds(s, n, h, seen[h]); }
    forall id: Id | Holds(s, n, h, id) ensures h in seen { assert Rec(s, id).hash in seen; }
  }

  // ---------------------------------------------------------------- the walk down from the best block

  /** Within k parent steps a root or an absent parent is reached. */
  ghost predicate Ends(s: Store, n: nat, id: Id, k: nat)
    decreases k
  {
    id == 0 || IsRoot(s, id) || (k > 0 && Ends(s, n, ParentId(s, n, id), k - 1))
  }

  ghost predicate WalkEnds(s: Store, n: nat, id: Id) {
    exists k: nat :: Ends(s, n, id, k)
  }

  ghost predicate MeetsCycle(s: Store, n: nat, id: Id) {
    exists i: nat, k: nat :: OnCycle(s, n, Ancestor(s, n, id, i), k)
  }

  lemma {:induction false} EndsAncestor(s: Store, n: nat, id: Id, k: nat, j: nat)
    requires Ends(s, n, id, k) && j > k
    ensures Ancestor(s, n, id, j) == 0
    decreases k
  {
    if id != 0 && !IsRoot(s, id) { EndsAncestor(s, n, ParentId(s, n, id), k - 1, j - 1); }
  }

  lemma {:induction false} StillWalking(s: Store, n: nat, id: Id, k: nat, i: nat)
    requires id <= n && !Ends(s, n, id, k) && i <= k
    ensures 1 <= Ancestor(s, n, id, i) <= n
    decreases k
  {
    ParentInRange(s, n, id);
    if i > 0 { StillWalking(s, n, ParentId(s, n, id), k - 1, i - 1); }
  }

  lemma NoReturn(s: Store, n: nat, id: Id)
    requires WalkEnds(s, n, id)
    ensures !MeetsCycle(s, n, id)
  {
    if MeetsCycle(s, n, id) {
      var k: nat :| Ends(s, n, id, k);
      var i: nat, c: nat :| OnCycle(s, n, Ancestor(s, n, id, i), c);
      var m := ReturnsLater(s, n, Ancestor(s, n, id, i), c, k);
      AncestorAdd(s, n, id, i, m);
      EndsAncestor(s, n, id, k, i + m);
    }
  }

  /** More steps than records: some record is met twice. */
  lemma MetTwice(s: Store, n: nat, id: Id)
    requires id <= n && !Ends(s, n, id, n)
    ensures MeetsCycle(s, n, id)
  {
    hide Ends, Ancestor;
    var line := seq(n + 1, i requires 0 <= i => Ancestor(s, n, id, i));
    forall i | 0 <= i < |line| ensures 1 <= line[i] <= n { StillWalking(s, n, id, n, i); }
    if Distinct(line) { DerivedReplay.DistinctBounded(n, line); }
    var i, j :| 0 <= i < j < |line| && line[i] == line[j];
    AncestorAdd(s, n, id, i, j - i);
    assert OnCycle(s, n, Ancestor(s, n, id, i), j - i);
  }

  /** The walk, which has no other stop, ends exactly if it meets no cycle. */
  lemma WalkEndsIff(s: Store, n: nat, id: Id)
    requires id <= n
    ensures WalkEnds(s, n, id) <==> !MeetsCycle(s, n, id)
  {
    hide MeetsCycle;
    if WalkEnds(s, n, id) { NoReturn(s, n, id); } else { MetTwice(s, n, id); }
  }

  /** Linked records, none of them a root but possibly the last. */
  ghost predicate Trail(s: Store, n: nat, path: seq<Id>) {
    && (forall i :: 0 <= i < |path| ==> 1 <= path[i] <= n)
    && (forall i :: 0 <= i < |path| - 1 ==> !IsRoot(s, path[i]) && ParentId(s, n, path[i]) == path[i + 1])
  }

  /** The ancestry of id down to a root, id first. */
  ghost predicate IsPath(s: Store, n: nat, id: Id, path: seq<Id>) {
    path != [] && path[0] == id && Trail(s, n, path) && IsRoot(s, path[|path| - 1])
  }

  lemma {:induction false} PathUnique(s: Store, n: nat, id: Id, p: seq<Id>, q: seq<Id>)
    requires IsPath(s, n, id, p) && IsPath(s, n, id, q)
    ensures p == q
    decreases |p|
  {
    if |p| > 1 && |q| > 1 {
      PathUnique(s, n, p[1], p[1..], q[1..]);
      assert p == [id] + p[1..] && q == [id] + q[1..];
    }
  }

  lemma {:induction false} TrailOfPath(s: Store, n: nat, id: Id, p: seq<Id>, trail: seq<Id>)
    requires IsPath(s, n, id, p) && Trail(s, n, trail) && trail != [] && trail[0] == id
    ensures |trail| <= |p| && trail == p[..|trail|]
    decreases |trail|
  {
    if |trail| > 1 {
      TrailOfPath(s, n, p[1], p[1..], trail[1..]);
      assert trail == [id] + trail[1..] && p == [id] + p[1..];
      assert p[..|trail|] == [id] + p[1..][..|trail| - 1];
    }
  }

  /** A trail along a path has not come to an absent parent. */
  lemma TrailContinues(s: Store, n: nat, id: Id, p: seq<Id>, trail: seq<Id>)
    requires IsPath(s, n, id, p) && Trail(s, n, trail) && trail != [] && trail[0] == id
    ensures var last := trail[|trail| - 1]; IsRoot(s, last) || ParentId(s, n, last) != 0
  {
    TrailOfPath(s, n, id, p, trail);
    assert p[|trail| - 1] == trail[|trail| - 1];
    if |trail| < |p| { assert 1 <= p[|trail|] <= n; }
  }

  ghost predicate RowsOf(s: Store, ids: seq<Id>, rows: seq<Row>) {
    |rows| == |ids| && forall i :: 0 <= i < |ids| ==> rows[i] == RowOf(s, ids[i])
  }

  /** Follow the parent links from the best block; a missing record is refused. */
  method WalkActive(recs: seq<Record>, byHash: map<Hash, Id>, best: Hash)
    returns (ok: bool, rows: seq<Row>, ghost path: seq<Id>)
    requires UniqueHashes(StoreOf(recs), |recs|) && Names(StoreOf(recs), byHash, |recs|)
    requires WalkEnds(StoreOf(recs), |recs|, IdOf(StoreOf(recs), |recs|, best))
    ensures ok <==> exists p :: IsPath(StoreOf(recs), |recs|, IdOf(StoreOf(recs), |recs|, best), p)
    ensures ok ==> IsPath(StoreOf(recs), |recs|, IdOf(StoreOf(recs), |recs|, best), path)
    ensures ok ==> RowsOf(StoreOf(recs), path, rows)
  {
    hide UniqueHashes, Names;
    ghost var s, n := StoreOf(recs), |recs|;
    ghost var start := IdOf(s, n, best);
    ghost var k: nat :| Ends(s, n, start, k);
    rows, path := [], [];
    var cur := best;
    while true
      invariant Ends(s, n, IdOf(s, n, cur), k)
      invariant Trail(s, n, path) && RowsOf(s, path, rows)
      invariant if path == [] then cur == best
                else path[0] == start && var last := path[|path| - 1];
                     !IsRoot(s, last) && Rec(s, last).hashPrev == cur
      decreases k
    {
      NamesExact(s, n, byHash, cur);
      if cur !in byHash {
        forall p ensures !IsPath(s, n, start, p) {
          if path != [] && IsPath(s, n, start, p) { TrailContinues(s, n, start, p, path); }
        }
        return false, rows, path;
      }
      var id := byHash[cur];
      NamedIs(s, n, byHash, cur);
      var rec := recs[id - 1];
      assert rec == Rec(s, id);
      rows := rows + [Row(rec.hash, rec.hashPrev, rec.height, id)];
      path := path + [id];
      if rec.hashPrev == 0 {
        assert IsPath(s, n, start, path);
        break;
      }
      cur := rec.hashPrev;
      k := k - 1;
    }
    ok := true;
  }

  lemma NamedIs(s: Store, n: nat, byHash: map<Hash, Id>, h: Hash)
    requires UniqueHashes(s, n) && Names(s, byHash, n) && h in byHash
    ensures IdOf(s, n, h) == byHash[h] && 1 <= byHash[h] <= n && Rec(s, byHash[h]).hash == h
  {
    IdOfUnique(s, n, h, byHash[h]);
  }

  // ---------------------------------------------------------------- the layout by height

  ghost predicate HeightOccurs(s: Store, path: seq<Id>, h: int) {
    exists i :: 0 <= i < |path| && Rec(s, path[i]).height == h
  }

  /** The path has as many heights as records: 0 and up, without a gap. */
  ghost predicate Gapless(s: Store, path: seq<Id>) {
    forall h :: 0 <= h < |path| ==> HeightOccurs(s, path, h)
  }

  ghost predicate ActiveAccepted(s: Store, n: nat, best: Hash) {
    exists path :: IsPath(s, n, IdOf(s, n, best), path) && Gapless(s, path)
  }

  /** The records of the path, each at its own height. */
  ghost predicate LaidOut(s: Store, path: seq<Id>, active: seq<Id>) {
    && |active| == |path|
    && (forall h :: 0 <= h < |active| ==> active[h] in path && Rec(s, active[h]).height == h)
    && (forall i :: 0 <= i < |path| ==> path[i] in active)
  }

  ghost predicate RowAt(sorted: seq<Row>, i: int, h: int) {
    0 <= i < |sorted| && sorted[i].height == h
  }

  ghost predicate HasRow(sorted: seq<Row>, h: int) {
    exists i :: RowAt(sorted, i, h)
  }

  /** There are as many heights as rows: 0 and up. */
  ghost predicate AllHeights(sorted: seq<Row>) {
    forall g :: 0 <= g < |sorted| ==> HasRow(sorted, g)
  }

  lemma {:induction false} NotBefore(sorted: seq<Row>, h: nat, i: nat)
    requires Sorted(sorted) && AllHeights(sorted) && RowAt(sorted, i, h)
    requires h < |sorted|
    ensures i >= h
  {
    if h > 0 {
      assert HasRow(sorted, h - 1);
      var j :| RowAt(sorted, j, h - 1);
      NotBefore(sorted, h - 1, j);
    }
  }

  lemma {:induction false} NotAfter(sorted: seq<Row>, h: nat, i: nat)
    requires Sorted(sorted) && AllHeights(sorted) && RowAt(sorted, i, h)
    requires h < |sorted|
    ensures i <= h
    decreases |sorted| - h
  {
    if h + 1 < |sorted| {
      assert HasRow(sorted, h + 1);
      var j :| RowAt(sorted, j, h + 1);
      NotAfter(sorted, h + 1, j);
    }
  }

  /** Sorted rows that have every height have each at its own place. */
  lemma SortedGapless(sorted: seq<Row>, h: nat)
    requires Sorted(sorted) && AllHeights(sorted)
    requires h < |sorted|
    ensures sorted[h].height == h
  {
    assert HasRow(sorted, h);
    var i :| RowAt(sorted, i, h);
    NotBefore(sorted, h, i);
    NotAfter(sorted, h, i);
  }

  lemma SortedHeights(s: Store, path: seq<Id>, rows: seq<Row>, sorted: seq<Row>)
    requires RowsOf(s, path, rows) && multiset(rows) == multiset(sorted) && Gapless(s, path)
    ensures |sorted| == |path| && AllHeights(sorted)
  {
    assert |multiset(rows)| == |multiset(sorted)|;
    forall g | 0 <= g < |sorted| ensures HasRow(sorted, g) {
      assert HeightOccurs(s, path, g);
      var i :| 0 <= i < |path| && Rec(s, path[i]).height == g;
      assert rows[i] in multiset(rows);
      assert rows[i] in sorted;
      var j :| 0 <= j < |sorted| && sorted[j] == rows[i];
      assert RowAt(sorted, j, g);
    }
  }

  lemma SortedLaidOut(s: Store, path: seq<Id>, rows: seq<Row>, sorted: seq<Row>, active: seq<Id>)
    requires RowsOf(s, path, rows) && multiset(rows) == multiset(sorted)
    requires |active| == |sorted|
    requires forall h :: 0 <= h < |sorted| ==> sorted[h].height == h && active[h] == sorted[h].recordId
    ensures LaidOut(s, path, active) && Gapless(s, path)
  {
    assert |multiset(rows)| == |multiset(sorted)|;
    forall h | 0 <= h < |active|
      ensures active[h] in path && Rec(s, active[h]).height == h && HeightOccurs(s, path, h)
    {
      assert sorted[h] in multiset(sorted);
      assert sorted[h] in rows;
      var i :| 0 <= i < |rows| && rows[i] == sorted[h];
      assert path[i] == active[h];
    }
    forall i | 0 <= i < |path| ensures path[i] in active {
      assert rows[i] in multiset(rows);
      assert rows[i] in sorted;
      var j :| 0 <= j < |sorted| && sorted[j] == rows[i];
      assert active[j] == path[i];
    }
  }

  /** The walk, sorted by height; it is refused unless the heights are 0 and up without a gap. */
  method CollectActive(recs: seq<Record>, byHash: map<Hash, Id>, best: Option<Hash>)
    returns (ok: bool, active: seq<Id>, ghost path: seq<Id>)
    requires UniqueHashes(StoreOf(recs), |recs|) && Names(StoreOf(recs), byHash, |recs|)
    requires best.Some? ==> WalkEnds(StoreOf(recs), |recs|, IdOf(StoreOf(recs), |recs|, best.value))
    ensures ok <==> best.Some? && ActiveAccepted(StoreOf(recs), |recs|, best.value)
    ensures ok ==> IsPath(StoreOf(recs), |recs|, IdOf(StoreOf(recs), |recs|, best.value), path)
    ensures ok ==> LaidOut(StoreOf(recs), path, active)
  {
    hide UniqueHashes, Names, Sorted, IsPath, Gapless, LaidOut, RowsOf, WalkEnds;
    ghost var s, n := StoreOf(recs), |recs|;
    active, path := [], [];
    if best.None? {
      return false, active, path;
    }
    var rows;
    ok, rows, path := WalkActive(recs, byHash, best.value);
    if !ok {
      return;
    }
    ghost var start := IdOf(s, n, best.value);
    forall p | IsPath(s, n, start, p) ensures p == path { PathUnique(s, n, start, p, path); }
    var sorted := SortChunk(rows);
    if Gapless(s, path) { SortedHeights(s, path, rows, sorted); }
    var h := 0;
    while h < |sorted|
      invariant 0 <= h == |active| <= |sorted|
      invariant forall g :: 0 <= g < h ==> sorted[g].height == g && active[g] == sorted[g].recordId
    {
      if Gapless(s, path) { SortedGapless(sorted, h); }
      if sorted[h].height != h {
        return false, active, path;
      }
      active := active + [sorted[h].recordId];
      h := h + 1;
    }
    SortedLaidOut(s, path, rows, sorted, active);
  }

  // ---------------------------------------------------------------- when the layout is a chain

  /** Each record is one above its parent. */
  ghost predicate StepsDown(s: Store, path: seq<Id>) {
    forall i :: 0 <= i < |path| - 1 ==> Rec(s, path[i]).height == Rec(s, path[i + 1]).height + 1
  }

  function ByHeight(active: seq<Id>): DerivedReplay.Active {
    map h: int | 0 <= h < |active| :: active[h]
  }

  /** The layout is the linked chain that the replay asks for. */
  ghost predicate Linked(s: Store, n: nat, active: seq<Id>) {
    DerivedReplay.ActiveChain(s, n, ByHeight(active), DerivedReplay.NULL_SEED, |active| - 1)
  }

  lemma ChainSteps(s: Store, n: nat, id: Id, path: seq<Id>, active: seq<Id>, i: nat)
    requires UniqueHashes(s, n) && IsPath(s, n, id, path) && LaidOut(s, path, active) && Linked(s, n, active)
    requires i < |path| - 1
    ensures Rec(s, path[i]).height == Rec(s, path[i + 1]).height + 1
  {
    assert path[i] in active;
    var h: nat :| h < |active| && active[h] == path[i];
    assert DerivedReplay.ActiveLinked(s, n, ByHeight(active), DerivedReplay.NULL_SEED, h);
    assert h > 0 && active[h - 1] in path;
    IdOfUnique(s, n, Rec(s, path[i]).hashPrev, active[h - 1]);
  }

  lemma {:induction false} StepsHeight(s: Store, path: seq<Id>, i: nat)
    requires StepsDown(s, path) && i < |path|
    ensures Rec(s, path[i]).height == Rec(s, path[|path| - 1]).height + |path| - 1 - i
    decreases |path| - i
  {
    if i < |path| - 1 { StepsHeight(s, path, i + 1); }
  }

  lemma StepsPlace(s: Store, path: seq<Id>, active: seq<Id>, h: nat)
    requires LaidOut(s, path, active) && StepsDown(s, path) && h < |active|
    requires forall i :: 0 <= i < |path| ==> Rec(s, path[i]).height >= 0
    ensures active[h] == path[|path| - 1 - h]
  {
    assert active[0] in path;
    var z :| 0 <= z < |path| && path[z] == active[0];
    StepsHeight(s, path, z);
    assert active[h] in path;
    var i :| 0 <= i < |path| && path[i] == active[h];
    StepsHeight(s, path, i);
  }

  lemma StepsLinked(s: Store, n: nat, id: Id, path: seq<Id>, active: seq<Id>, h: nat)
    requires UniqueHashes(s, n) && AllReadable(s, n) && IsPath(s, n, id, path) && LaidOut(s, path, active)
    requires StepsDown(s, path) && h < |active|
    ensures DerivedReplay.ActiveLinked(s, n, ByHeight(active), DerivedReplay.NULL_SEED, h)
  {
    hide UniqueHashes, StepsDown;
    forall i | 0 <= i < |path| ensures Readable(s, n, path[i]) { assert 1 <= path[i] <= n; }
    StepsPlace(s, path, active, h);
    assert ByHeight(active)[h] == active[h];
    if h > 0 {
      StepsPlace(s, path, active, h - 1);
      assert ByHeight(active)[h - 1] == active[h - 1];
      ParentInRange(s, n, active[h]);
    }
  }

  /** An accepted layout is a linked chain exactly if heights step by one along the ancestry. */
  lemma LinkedIff(s: Store, n: nat, id: Id, path: seq<Id>, active: seq<Id>)
    requires UniqueHashes(s, n) && AllReadable(s, n) && IsPath(s, n, id, path) && LaidOut(s, path, active)
    ensures Linked(s, n, active) <==> StepsDown(s, path)
  {
    hide UniqueHashes, AllReadable, IsPath, LaidOut, ByHeight, DerivedReplay.ActiveLinked;
    if Linked(s, n, active) {
      forall i | 0 <= i < |path| - 1 ensures Rec(s, path[i]).height == Rec(s, path[i + 1]).height + 1 {
        ChainSteps(s, n, id, path, active, i);
      }
    }
    if StepsDown(s, path) {
      var a, seed := ByHeight(active), DerivedReplay.NULL_SEED;
      forall h | 0 <= h < |active| ensures DerivedReplay.ActiveLinked(s, n, a, seed, h) {
        StepsLinked(s, n, id, path, active, h);
      }
    }
  }
}
