/** Rebuilding every derived entry from the records alone: the active walk and the side-branch closure. */
module DerivedReplay {
  import opened Chain
  import opened Iteration

  datatype Status = OK | IoError | Corrupt | Internal

  type Entries = map<Id, Derived>

  /** Active heights whose entry can be read, with the RecordId found there. */
  type Active = map<int, Id>

  // ---------------------------------------------------------------- what success requires

  function IdAt(active: Active, h: int): Id {
    if h in active then active[h] else 0
  }

  /** What a replay of the active chain starts above: a record, or the null parent below height 0. */
  datatype Seed = Seed(height: int, hash: Hash, entry: Derived)

  const NULL_SEED := Seed(-1, 0, DEFAULT_DERIVED)

  ghost function SeedOf(s: Store, parentId: Id, seedDerived: Derived): Seed {
    if parentId == 0 then Seed(-1, 0, seedDerived)
    else Seed(Rec(s, parentId).height, Rec(s, parentId).hash, seedDerived)
  }

  /** The hash a record at height h must name as its parent. */
  function HashBelow(s: Store, active: Active, seed: Seed, h: int): Hash {
    if h <= seed.height + 1 then seed.hash else Rec(s, IdAt(active, h - 1)).hash
  }

  ghost predicate ActiveLinked(s: Store, n: nat, active: Active, seed: Seed, h: int) {
    && Readable(s, n, IdAt(active, h))
    && Rec(s, IdAt(active, h)).height == h
    && Rec(s, IdAt(active, h)).hashPrev == HashBelow(s, active, seed, h)
  }

  /** The heights above the seed up to tip hold readable records of that height, each linked to the one below. */
  ghost predicate ActiveChain(s: Store, n: nat, active: Active, seed: Seed, tip: int) {
    forall h :: seed.height < h <= tip ==> ActiveLinked(s, n, active, seed, h)
  }

  /** Every record decodes, no hash occurs twice, every record reaches a parentless one. */
  ghost predicate Sound(s: Store, n: nat) {
    && AllReadable(s, n)
    && UniqueHashes(s, n)
    && forall id :: 1 <= id <= n ==> Reaches(s, n, id)
  }

  // ---------------------------------------------------------------- pass 1: the active chain

  /** The entry at height h when each height derives from the one below. */
  ghost function ActiveValue(rules: Rules, s: Store, active: Active, seed: Seed, h: int): Derived
    decreases if h <= seed.height then 0 else h - seed.height
  {
    if h <= seed.height then seed.entry
    else Derive(rules, Rec(s, IdAt(active, h)), ActiveValue(rules, s, active, seed, h - 1))
  }

  ghost predicate EntryAt(rules: Rules, s: Store, active: Active, seed: Seed, m: Entries, h: int) {
    IdAt(active, h) in m && m[IdAt(active, h)] == ActiveValue(rules, s, active, seed, h)
  }

  ghost predicate Occurs(active: Active, seed: Seed, top: int, id: Id, h: int) {
    seed.height < h < top && IdAt(active, h) == id
  }

  /** The heights above the seed and below top are linked; their entries are in the map, besides what was given. */
  ghost predicate ActiveEntries(rules: Rules, s: Store, n: nat, active: Active, seed: Seed, top: int,
                                given: Entries, m: Entries) {
    && ActiveChain(s, n, active, seed, top - 1)
    && (forall h :: seed.height < h < top ==> EntryAt(rules, s, active, seed, m, h))
    && given.Keys <= m.Keys
    && (forall id :: id in m ==> (exists h :: Occurs(active, seed, top, id, h)) || (id in given && m[id] == given[id]))
  }

  lemma ActiveExtends(rules: Rules, s: Store, n: nat, active: Active, seed: Seed, h: int, given: Entries, m: Entries)
    requires seed.height < h && ActiveEntries(rules, s, n, active, seed, h, given, m)
    requires ActiveLinked(s, n, active, seed, h)
    ensures ActiveEntries(rules, s, n, active, seed, h + 1, given,
                          m[IdAt(active, h) := ActiveValue(rules, s, active, seed, h)])
  {
    var m' := m[IdAt(active, h) := ActiveValue(rules, s, active, seed, h)];
    forall i | seed.height < i < h + 1 ensures EntryAt(rules, s, active, seed, m', i) {
      if i < h {
        assert EntryAt(rules, s, active, seed, m, i) && ActiveLinked(s, n, active, seed, i);
      }
    }
    var top := h + 1;
    forall id | id in m' && !(id in given && m'[id] == given[id]) ensures exists i :: Occurs(active, seed, top, id, i) {
      if id == IdAt(active, h) {
        assert Occurs(active, seed, top, id, h);
      } else {
        var i :| Occurs(active, seed, h, id, i);
        assert Occurs(active, seed, top, id, i);
      }
    }
  }

  /** The first height that is not linked. */
  ghost predicate FirstBad(s: Store, n: nat, active: Active, seed: Seed, tip: int, h: int) {
    seed.height < h <= tip && !ActiveLinked(s, n, active, seed, h) && ActiveChain(s, n, active, seed, h - 1)
  }

  /** The height a replay stops at: past the tip, or the first one that is not linked. */
  ghost predicate StopsAt(s: Store, n: nat, active: Active, seed: Seed, tip: int, h: int) {
    if ActiveChain(s, n, active, seed, tip) then h == (if seed.height < tip then tip else seed.height) + 1
    else FirstBad(s, n, active, seed, tip, h)
  }

  /**
   ReplayDerivedActiveChain above a seed.  It adds the entries of the heights below the one it
   stops at; an active entry that cannot be read is an I/O error, anything else is corruption.
   */
  method ReplayActiveChain(rules: Rules, s: Store, n: nat, active: Active, tip: int, parentId: Id, seedDerived: Derived,
                           given: Entries)
    returns (st: Status, entries: Entries, ghost stop: int)
    ensures parentId != 0 && !Readable(s, n, parentId) ==> st == Corrupt && entries == given
    ensures parentId == 0 || Readable(s, n, parentId) ==>
              var seed := SeedOf(s, parentId, seedDerived);
              && (st == OK <==> ActiveChain(s, n, active, seed, tip))
              && (st == IoError <==> exists h :: FirstBad(s, n, active, seed, tip, h) && h !in active)
              && StopsAt(s, n, active, seed, tip, stop)
              && ActiveEntries(rules, s, n, active, seed, stop, given, entries)
    ensures st != Internal
  {
    entries, stop := given, 0;
    if parentId != 0 && !(1 <= parentId <= n && parentId in s && ValidRecord(s[parentId])) {
      return Corrupt, entries, stop;
    }
    ghost var seed := SeedOf(s, parentId, seedDerived);
    var parentRec := if parentId != 0 then s[parentId] else NULL_RECORD.(height := -1);
    stop := seed.height + 1;
    if parentRec.height > tip {
      return OK, entries, stop;
    }
    var parentHash, parentEntry := parentRec.hash, seedDerived;
    var h := parentRec.height + 1;
    while h <= tip
      invariant seed.height < h <= tip + 1 && stop == h
      invariant ActiveEntries(rules, s, n, active, seed, h, given, entries)
      invariant parentHash == HashBelow(s, active, seed, h)
      invariant parentEntry == ActiveValue(rules, s, active, seed, h - 1)
    {
      if h !in active {
        assert FirstBad(s, n, active, seed, tip, h);
        return IoError, entries, stop;
      }
      var id := active[h];
      if id == 0 || id > n || !(id in s && ValidRecord(s[id])) {
        BadHere(s, n, active, seed, tip, h);
        return Corrupt, entries, stop;
      }
      var rec := s[id];
      if rec.height != h || rec.hashPrev != parentHash {
        BadHere(s, n, active, seed, tip, h);
        return Corrupt, entries, stop;
      }
      assert ActiveLinked(s, n, active, seed, h);
      ActiveExtends(rules, s, n, active, seed, h, given, entries);
      var d := Derive(rules, rec, parentEntry);
      entries := entries[id := d];
      parentEntry, parentHash := d, rec.hash;
      h := h + 1;
      stop := h;
    }
    st := OK;
  }

  lemma BadHere(s: Store, n: nat, active: Active, seed: Seed, tip: int, h: int)
    requires seed.height < h <= tip && !ActiveLinked(s, n, active, seed, h) && ActiveChain(s, n, active, seed, h - 1)
    requires h in active
    ensures FirstBad(s, n, active, seed, tip, h) && !ActiveChain(s, n, active, seed, tip)
    ensures !exists i :: FirstBad(s, n, active, seed, tip, i) && i !in active
  {
  }

  /** A replay leaves the map as it was exactly if the first height above the seed is bad. */
  lemma NothingAppended(rules: Rules, s: Store, n: nat, active: Active, seed: Seed, tip: int, stop: int,
                        given: Entries, entries: Entries)
    requires seed.height < tip && IdAt(active, seed.height + 1) !in given
    requires StopsAt(s, n, active, seed, tip, stop) && ActiveEntries(rules, s, n, active, seed, stop, given, entries)
    ensures entries == given <==> !ActiveLinked(s, n, active, seed, seed.height + 1)
  {
    var h := seed.height + 1;
    if ActiveLinked(s, n, active, seed, h) {
      assert EntryAt(rules, s, active, seed, entries, h);
    } else {
      assert stop == h;
    }
  }

  /** The seed is the null parent, or a record with the entry the recursion gives it. */
  ghost predicate SeedSolved(rules: Rules, s: Store, n: nat, seed: Seed, p: Id, k: nat) {
    if p == 0 then seed == NULL_SEED
    else Grounded(s, n, p, k) && seed.entry == Value(rules, s, n, p, k)
         && seed.height == Rec(s, p).height >= 0 && seed.hash == Rec(s, p).hash != 0
  }

  /** Once hashes are unique, the entries replayed above a solved seed solve the recursion by hash. */
  lemma {:induction false} ActiveSolved(rules: Rules, s: Store, n: nat, active: Active, seed: Seed,
                                        p: Id, k: nat, h: int)
    returns (j: nat)
    requires SeedSolved(rules, s, n, seed, p, k) && UniqueHashes(s, n)
    requires seed.height < h && ActiveChain(s, n, active, seed, h)
    ensures Grounded(s, n, IdAt(active, h), j)
    ensures Value(rules, s, n, IdAt(active, h), j) == ActiveValue(rules, s, active, seed, h)
    decreases h - seed.height
  {
    assert ActiveLinked(s, n, active, seed, h);
    var below := p;
    if h > seed.height + 1 {
      assert ActiveLinked(s, n, active, seed, h - 1);
      below := IdAt(active, h - 1);
      j := ActiveSolved(rules, s, n, active, seed, p, k, h - 1);
    } else {
      j := k;
    }
    if below == 0 {
      j := 0;
    } else {
      IdOfUnique(s, n, Rec(s, IdAt(active, h)).hashPrev, below);
      j := j + 1;
    }
  }

  lemma ActiveAllSolved(rules: Rules, s: Store, n: nat, active: Active, top: int, m: Entries)
    requires ActiveEntries(rules, s, n, active, NULL_SEED, top, map[], m) && UniqueHashes(s, n)
    ensures AllSolved(rules, s, n, m)
  {
    forall id | id in m ensures 1 <= id <= n && Solved(rules, s, n, m, id) {
      var h :| Occurs(active, NULL_SEED, top, id, h);
      assert ActiveLinked(s, n, active, NULL_SEED, h) && EntryAt(rules, s, active, NULL_SEED, m, h);
      var j := ActiveSolved(rules, s, n, active, NULL_SEED, 0, 0, h);
    }
  }

  // ---------------------------------------------------------------- pass 2: the side closure

  ghost predicate IndexUpTo(s: Store, n: nat, hashToId: map<Hash, Id>, count: nat) {
    && (forall h :: h in hashToId ==> 1 <= hashToId[h] <= count && Rec(s, hashToId[h]).hash == h)
    && (forall id :: 1 <= id <= count ==> Readable(s, n, id) && Rec(s, id).hash in hashToId
                                          && hashToId[Rec(s, id).hash] == id)
  }

  /** One streaming pass: hash to RecordId, refusing duplicates. */
  method BuildHashIndex(s: Store, n: nat) returns (st: Status, hashToId: map<Hash, Id>)
    ensures st == OK || st == Corrupt
    ensures st == OK <==> AllReadable(s, n) && UniqueHashes(s, n)
    ensures st == OK ==> IndexUpTo(s, n, hashToId, n)
  {
    hashToId := map[];
    var rid := 1;
    while rid <= n
      invariant 1 <= rid <= n + 1
      invariant IndexUpTo(s, n, hashToId, rid - 1)
    {
      if !(rid in s && ValidRecord(s[rid])) {
        assert !Readable(s, n, rid);
        return Corrupt, hashToId;
      }
      if s[rid].hash in hashToId {
        assert Rec(s, hashToId[s[rid].hash]).hash == Rec(s, rid).hash;
        return Corrupt, hashToId;
      }
      hashToId := hashToId[s[rid].hash := rid];
      rid := rid + 1;
    }
    st := OK;
  }

  lemma IndexIsIdOf(s: Store, n: nat, hashToId: map<Hash, Id>, h: Hash)
    requires IndexUpTo(s, n, hashToId, n) && UniqueHashes(s, n)
    ensures IdOf(s, n, h) == if h in hashToId then hashToId[h] else 0
  {
    if h in hashToId {
      IdOfUnique(s, n, h, hashToId[h]);
    } else {
      forall id: Id ensures !Holds(s, n, h, id) {
        if 1 <= id <= n { assert Rec(s, id).hash in hashToId; }
      }
    }
  }

  /** stack[i + 1] is the parent of stack[i], all distinct, none derived yet. */
  ghost predicate Branch(s: Store, n: nat, entries: Entries, stack: seq<Id>) {
    && (forall i :: 0 <= i < |stack| ==> 1 <= stack[i] <= n && stack[i] !in entries)
    && (forall i :: 0 <= i < |stack| - 1 ==> !IsRoot(s, stack[i]) && ParentId(s, n, stack[i]) == stack[i + 1])
    && Distinct(stack)
  }

  lemma {:induction false} DistinctBounded(n: nat, stack: seq<Id>)
    requires forall i :: 0 <= i < |stack| ==> 1 <= stack[i] <= n
    requires Distinct(stack)
    ensures |stack| <= n
  {
    if stack != [] {
      assert 1 <= stack[0] <= n;
      if n in stack {
        var k :| 0 <= k < |stack| && stack[k] == n;
        DistinctBounded(n - 1, stack[..k] + stack[k + 1..]);
      } else {
        DistinctBounded(n - 1, stack);
      }
    }
  }

  lemma {:induction false} BranchAncestor(s: Store, n: nat, entries: Entries, stack: seq<Id>, i: nat, k: nat)
    requires Branch(s, n, entries, stack) && i + k < |stack|
    ensures Ancestor(s, n, stack[i], k) == stack[i + k]
    decreases k
  {
    if k > 0 {
      BranchAncestor(s, n, entries, stack, i + 1, k - 1);
    }
  }

  /** The reason a record reaches no root: a hole in the ancestry, a self-link, or a longer cycle. */
  ghost predicate Broken(s: Store, n: nat, id: Id) {
    1 <= id <= n && !IsRoot(s, id) && (ParentId(s, n, id) == 0 || ParentId(s, n, id) == id)
  }

  lemma BrokenNeverReaches(s: Store, n: nat, id: Id)
    requires Broken(s, n, id)
    ensures !Reaches(s, n, id)
  {
    if Reaches(s, n, id) {
      var k: nat :| Grounded(s, n, id, k);
      assert Grounded(s, n, ParentId(s, n, id), k - 1);
      if ParentId(s, n, id) == id {
        assert Ancestor(s, n, id, 1) == id;
        CycleNeverGrounded(s, n, id, 1);
      }
    }
  }

  /** The walk is at cur, the parent of the last record pushed. */
  ghost predicate WalkAt(s: Store, n: nat, entries: Entries, stack: seq<Id>, cur: Id) {
    && 1 <= cur <= n
    && Branch(s, n, entries, stack)
    && (|stack| > 0 ==> var last := stack[|stack| - 1];
                        !IsRoot(s, last) && ParentId(s, n, last) == cur && cur != last)
  }

  /** x is on a cycle of several records. */
  ghost predicate OnLongCycle(s: Store, n: nat, x: Id) {
    ParentId(s, n, x) != x && exists k: nat :: OnCycle(s, n, x, k)
  }

  lemma CycleFound(s: Store, n: nat, entries: Entries, stack: seq<Id>, cur: Id)
    requires WalkAt(s, n, entries, stack, cur) && cur in stack
    ensures OnLongCycle(s, n, cur)
  {
    var j :| 0 <= j < |stack| && stack[j] == cur;
    var k := |stack| - 1 - j;
    BranchAncestor(s, n, entries, stack, j, k);
    AncestorAdd(s, n, cur, k, 1);
    var last := stack[|stack| - 1];
    assert Ancestor(s, n, last, 1) == Ancestor(s, n, ParentId(s, n, last), 0) == cur;
    assert OnCycle(s, n, cur, k + 1);
    assert ParentId(s, n, cur) == if k == 0 then cur else stack[j + 1];
  }

  /** x is y itself or one of its ancestors. */
  ghost predicate IsAncestor(s: Store, n: nat, y: Id, x: Id) {
    exists k: nat :: Ancestor(s, n, y, k) == x
  }

  /** The ancestry of y leads into a cycle of several records. */
  ghost predicate EntersCycle(s: Store, n: nat, y: Id) {
    exists x :: IsAncestor(s, n, y, x) && OnLongCycle(s, n, x)
  }

  /** The ancestry of y ends at a record whose parent is absent or itself. */
  ghost predicate EndsBroken(s: Store, n: nat, y: Id) {
    exists x :: IsAncestor(s, n, y, x) && Broken(s, n, x)
  }

  lemma {:induction false} BrokenStays(s: Store, n: nat, x: Id, k: nat)
    requires Broken(s, n, x) && k > 0
    ensures Ancestor(s, n, x, k) == 0 || (Ancestor(s, n, x, k) == x == ParentId(s, n, x))
  {
    if ParentId(s, n, x) == x {
      if k > 1 { BrokenStays(s, n, x, k - 1); } else { assert Ancestor(s, n, x, 0) == x; }
    } else {
      assert Ancestor(s, n, 0, k - 1) == 0;
    }
  }

  /** Not both: past a broken record there is nothing, or only that record. */
  lemma BrokenOrCycle(s: Store, n: nat, y: Id)
    requires EndsBroken(s, n, y)
    ensures !EntersCycle(s, n, y)
  {
    if EntersCycle(s, n, y) {
      var x :| IsAncestor(s, n, y, x) && Broken(s, n, x);
      var k: nat :| Ancestor(s, n, y, k) == x;
      var z :| IsAncestor(s, n, y, z) && OnLongCycle(s, n, z);
      var j: nat :| Ancestor(s, n, y, j) == z;
      var c: nat :| OnCycle(s, n, z, c);
      var far := ReturnsLater(s, n, z, c, k);
      AncestorAdd(s, n, y, j, far);
      AncestorAdd(s, n, y, k, j + far - k);
      BrokenStays(s, n, x, j + far - k);
    }
  }

  /** Either way no root is reached. */
  lemma {:induction false} AncestorsReach(s: Store, n: nat, y: Id, k: nat)
    requires Reaches(s, n, y) && 1 <= Ancestor(s, n, y, k)
    ensures Reaches(s, n, Ancestor(s, n, y, k))
    decreases k
  {
    if k > 0 {
      var j: nat :| Grounded(s, n, y, j);
      assert Grounded(s, n, ParentId(s, n, y), j - 1);
      AncestorsReach(s, n, ParentId(s, n, y), k - 1);
    }
  }

  lemma StuckNeverReaches(s: Store, n: nat, y: Id)
    requires EndsBroken(s, n, y) || EntersCycle(s, n, y)
    ensures !Reaches(s, n, y)
  {
    var x;
    if EndsBroken(s, n, y) {
      x :| IsAncestor(s, n, y, x) && Broken(s, n, x);
      BrokenNeverReaches(s, n, x);
    } else {
      x :| IsAncestor(s, n, y, x) && OnLongCycle(s, n, x);
      var c: nat :| OnCycle(s, n, x, c);
      CycleNeverGrounded(s, n, x, c);
    }
    if Reaches(s, n, y) {
      var k: nat :| Ancestor(s, n, y, k) == x;
      AncestorsReach(s, n, y, k);
    }
  }

  lemma StackAncestors(s: Store, n: nat, entries: Entries, stack: seq<Id>)
    requires Branch(s, n, entries, stack) && |stack| > 0
    ensures forall x :: x in stack ==> IsAncestor(s, n, stack[0], x)
  {
    forall x | x in stack ensures IsAncestor(s, n, stack[0], x) {
      var k: nat :| k < |stack| && stack[k] == x;
      BranchAncestor(s, n, entries, stack, 0, k);
    }
  }

  /** What the walk has come to is what the ancestry of its start comes to. */
  lemma StackEnds(s: Store, n: nat, entries: Entries, stack: seq<Id>, cur: Id)
    requires Branch(s, n, entries, stack) && cur in stack
    ensures Broken(s, n, cur) ==> EndsBroken(s, n, stack[0])
    ensures OnLongCycle(s, n, cur) ==> EntersCycle(s, n, stack[0])
    ensures Broken(s, n, cur) || OnLongCycle(s, n, cur) ==> !Reaches(s, n, stack[0])
  {
    hide OnLongCycle, Broken, Reaches;
    StackAncestors(s, n, entries, stack);
    if Broken(s, n, cur) || OnLongCycle(s, n, cur) { StuckNeverReaches(s, n, stack[0]); }
  }

  lemma BranchPush(s: Store, n: nat, entries: Entries, stack: seq<Id>, cur: Id)
    requires WalkAt(s, n, entries, stack, cur) && cur !in stack && cur !in entries
    ensures Branch(s, n, entries, stack + [cur])
    ensures |stack| < n
  {
    DistinctBounded(n, stack + [cur]);
  }

  lemma ParentByIndex(s: Store, n: nat, hashToId: map<Hash, Id>, cur: Id)
    requires AllReadable(s, n) && UniqueHashes(s, n) && IndexUpTo(s, n, hashToId, n) && 1 <= cur <= n
    ensures var rec := Rec(s, cur);
            && ParentId(s, n, cur) == (if rec.hashPrev in hashToId then hashToId[rec.hashPrev] else 0)
            && (ParentId(s, n, cur) == cur <==> rec.hashPrev == rec.hash)
            && 0 <= ParentId(s, n, cur) <= n
  {
    IndexIsIdOf(s, n, hashToId, Rec(s, cur).hashPrev);
    assert Readable(s, n, cur);
    assert Rec(s, cur).hash in hashToId;
  }

  /** Walk up from id, pushing unresolved records, to a derived record or a root. */
  method WalkToAnchor(s: Store, n: nat, hashToId: map<Hash, Id>, entries: Entries, registered: map<Id, Id>, id: Id)
    returns (st: Status, stack: seq<Id>, cur: Id, anchorIsDerived: bool, registered': map<Id, Id>)
    requires AllReadable(s, n) && UniqueHashes(s, n) && IndexUpTo(s, n, hashToId, n)
    requires 1 <= id <= n && id !in entries
    requires registered.Keys <= entries.Keys
    ensures st == OK ==>
      && |stack| > 0 && stack[0] == id && Branch(s, n, entries, stack)
      && (forall x :: x in registered' ==> x in entries || x in stack)
      && (anchorIsDerived ==>
            !IsRoot(s, stack[|stack| - 1]) && ParentId(s, n, stack[|stack| - 1]) == cur && cur in entries)
      && (!anchorIsDerived ==> IsRoot(s, stack[|stack| - 1]))
    ensures st == Corrupt ==> EndsBroken(s, n, id)
    ensures st == Internal ==> EntersCycle(s, n, id)
    ensures st != OK ==> !Reaches(s, n, id)
    ensures st != IoError
  {
    hide Reaches, EndsBroken, EntersCycle, OnLongCycle;
    stack, cur, anchorIsDerived, registered' := [], id, false, registered;
    while true
      invariant WalkAt(s, n, entries, stack, cur)
      invariant (if |stack| == 0 then cur else stack[0]) == id
      invariant forall x :: x in registered' ==> x in entries || x in stack
      invariant forall x :: x in stack ==> x in registered'
      decreases n - |stack|
    {
      if cur in entries {
        anchorIsDerived := true;
        break;
      }
      if cur in registered' {
        CycleFound(s, n, entries, stack, cur);
        StackEnds(s, n, entries, stack, cur);
        return Internal, stack, cur, false, registered';
      }
      assert Readable(s, n, cur);
      var rec := s[cur];
      BranchPush(s, n, entries, stack, cur);
      assert |stack| <= n + 1;   // the walk-length check never fires: the stack holds distinct ids
      stack := stack + [cur];
      ParentByIndex(s, n, hashToId, cur);
      if rec.hashPrev == 0 {
        registered' := registered'[cur := 0];
        break;
      }
      if rec.hashPrev == rec.hash {
        assert Broken(s, n, cur);
        StackEnds(s, n, entries, stack, cur);
        return Corrupt, stack, cur, false, registered';
      }
      if rec.hashPrev !in hashToId {
        assert Broken(s, n, cur);
        StackEnds(s, n, entries, stack, cur);
        return Corrupt, stack, cur, false, registered';
      }
      registered' := registered'[cur := hashToId[rec.hashPrev]];
      cur := hashToId[rec.hashPrev];
    }
    st := OK;
  }

  /** Derive down the stack, deepest record first. */
  method DeriveDown(rules: Rules, s: Store, n: nat, stack: seq<Id>, anchor: Derived, entries: Entries)
    returns (entries': Entries)
    requires Branch(s, n, entries, stack) && |stack| > 0
    requires var last := stack[|stack| - 1];
             if IsRoot(s, last) then anchor == DEFAULT_DERIVED
             else exists k: nat :: Grounded(s, n, ParentId(s, n, last), k)
                                   && anchor == Value(rules, s, n, ParentId(s, n, last), k)
    requires forall id :: id in entries ==> Solved(rules, s, n, entries, id)
    ensures forall id :: id in entries' ==> Solved(rules, s, n, entries', id)
    ensures forall id :: id in entries' <==> id in entries || id in stack
  {
    entries' := entries;
    var parent := anchor;
    var i := |stack|;
    while i > 0
      invariant 0 <= i <= |stack|
      invariant forall id :: id in entries' <==> id in entries || id in stack[i..]
      invariant forall id :: id in entries' ==> Solved(rules, s, n, entries', id)
      invariant i == |stack| ==> parent == anchor
      invariant i < |stack| ==> stack[i] in entries' && parent == entries'[stack[i]]
    {
      i := i - 1;
      var id := stack[i];
      var d := Derive(rules, Rec(s, id), parent);
      ghost var before := entries';
      entries' := entries'[id := d];
      assert Solved(rules, s, n, entries', id) by {
        if IsRoot(s, id) {
          assert i == |stack| - 1;
          assert Grounded(s, n, id, 0);
        } else {
          var p := ParentId(s, n, id);
          if i < |stack| - 1 { assert Solved(rules, s, n, before, p); }
          var k: nat :| Grounded(s, n, p, k) && parent == Value(rules, s, n, p, k);
          assert Grounded(s, n, id, k + 1) && d == Value(rules, s, n, id, k + 1);
        }
      }
      forall x | x in entries' ensures Solved(rules, s, n, entries', x) {
        if x != id { assert Solved(rules, s, n, before, x); }
      }
      parent := d;
    }
  }

  ghost predicate AllSolved(rules: Rules, s: Store, n: nat, m: Entries) {
    forall id :: id in m ==> 1 <= id <= n && Solved(rules, s, n, m, id)
  }

  /** One round of the closure: resolve id together with all its unresolved ancestors. */
  method ResolveOne(rules: Rules, s: Store, n: nat, hashToId: map<Hash, Id>, entries: Entries,
                    registered: map<Id, Id>, id: Id)
    returns (st: Status, entries': Entries, registered': map<Id, Id>)
    requires AllReadable(s, n) && UniqueHashes(s, n) && IndexUpTo(s, n, hashToId, n)
    requires 1 <= id <= n && id !in entries
    requires registered.Keys <= entries.Keys && AllSolved(rules, s, n, entries)
    ensures st == OK ==> AllSolved(rules, s, n, entries') && id in entries' && entries.Keys <= entries'.Keys
    ensures st == OK ==> registered'.Keys <= entries'.Keys
    ensures st == OK ==> forall x :: x in entries' ==> x in entries || IsAncestor(s, n, id, x)
    ensures st != OK ==> entries' == entries && !Reaches(s, n, id)
    ensures st == Corrupt <==> EndsBroken(s, n, id)
    ensures st == Internal <==> EntersCycle(s, n, id)
    ensures st != IoError
  {
    hide EndsBroken, EntersCycle;
    if EndsBroken(s, n, id) { BrokenOrCycle(s, n, id); }
    if EndsBroken(s, n, id) || EntersCycle(s, n, id) { StuckNeverReaches(s, n, id); }
    var stack, cur, anchorIsDerived;
    entries' := entries;
    st, stack, cur, anchorIsDerived, registered' := WalkToAnchor(s, n, hashToId, entries, registered, id);
    if st != OK {
      return;
    }
    var parent := DEFAULT_DERIVED;
    if anchorIsDerived {
      parent := entries[cur];
      assert Solved(rules, s, n, entries, cur);
    }
    entries' := DeriveDown(rules, s, n, stack, parent, entries);
    assert stack[0] in stack;
    assert Solved(rules, s, n, entries', id);
    StackAncestors(s, n, entries, stack);
  }

  /** The least id that reaches no root. */
  ghost predicate FirstStuck(s: Store, n: nat, id: Id) {
    && 1 <= id <= n && !Reaches(s, n, id)
    && forall x :: 1 <= x < id ==> Reaches(s, n, x)
  }

  /** The store is readable, and the least id that reaches no root is kept from it by a cycle of several records. */
  ghost predicate CycleFirst(s: Store, n: nat) {
    AllReadable(s, n) && UniqueHashes(s, n) && exists f: Id :: FirstStuck(s, n, f) && EntersCycle(s, n, f)
  }

  /** A record is unreadable, a hash repeats, or the ancestry of the least id that reaches no root ends broken. */
  ghost predicate BrokenFirst(s: Store, n: nat) {
    AllReadable(s, n) && UniqueHashes(s, n) ==> exists f: Id :: FirstStuck(s, n, f) && EndsBroken(s, n, f)
  }

  /** x is an ancestor of an id before f, or one itself. */
  ghost predicate Before(s: Store, n: nat, f: Id, x: Id) {
    exists y: Id :: 1 <= y < f && IsAncestor(s, n, y, x)
  }

  /** Everything given and every id before f is solved; nothing but these and their ancestors is there. */
  ghost predicate SolvedBefore(rules: Rules, s: Store, n: nat, given: Entries, entries: Entries, f: Id) {
    && AllSolved(rules, s, n, entries) && given.Keys <= entries.Keys
    && (forall x :: 1 <= x < f ==> x in entries)
    && (forall x :: x in entries ==> x in given || Before(s, n, f, x))
  }

  /** What a refused closure leaves: what was given, or all that comes before the first stuck id. */
  ghost predicate LeftByRefusal(rules: Rules, s: Store, n: nat, given: Entries, entries: Entries) {
    if AllReadable(s, n) && UniqueHashes(s, n) then
      exists f: Id :: FirstStuck(s, n, f) && f !in entries && SolvedBefore(rules, s, n, given, entries, f)
    else entries == given
  }

  lemma SolvedOneMore(rules: Rules, s: Store, n: nat, given: Entries, entries: Entries, entries': Entries, f: Id)
    requires SolvedBefore(rules, s, n, given, entries, f) && 1 <= f && f in entries' && entries.Keys <= entries'.Keys
    requires AllSolved(rules, s, n, entries')
    requires forall x :: x in entries' ==> x in entries || IsAncestor(s, n, f, x)
    ensures SolvedBefore(rules, s, n, given, entries', f + 1)
  {
    var g := f + 1;
    forall x | x in entries' && x !in given ensures Before(s, n, g, x) {
      if x in entries {
        var y: Id :| 1 <= y < f && IsAncestor(s, n, y, x);
        assert 1 <= y < g;
      } else {
        assert 1 <= f < g;
      }
    }
  }

  /** From nothing, a refusal leaves nothing exactly if id 1 could not be derived. */
  lemma RefusalFromNothing(rules: Rules, s: Store, n: nat, entries: Entries)
    requires LeftByRefusal(rules, s, n, map[], entries)
    ensures entries == map[] <==> !(AllReadable(s, n) && UniqueHashes(s, n) && Reaches(s, n, 1))
  {
    if AllReadable(s, n) && UniqueHashes(s, n) {
      var f: Id :| FirstStuck(s, n, f) && f !in entries && SolvedBefore(rules, s, n, map[], entries, f);
      if f > 1 {
        assert 1 in entries;
      } else {
        assert forall x :: x !in entries;
      }
    }
  }

  /** ReplayDerivedSideClosure: complete given entries to all records, or refuse. */
  method ReplaySideClosure(rules: Rules, s: Store, n: nat, given: Entries) returns (st: Status, entries: Entries)
    requires AllReadable(s, n) && UniqueHashes(s, n) ==> AllSolved(rules, s, n, given)
    ensures st == OK <==> Sound(s, n)
    ensures st == OK ==> IsSolution(rules, s, n, entries) && AllSolved(rules, s, n, entries)
    ensures st == Internal <==> CycleFirst(s, n)
    ensures st == Corrupt <==> BrokenFirst(s, n)
    ensures st != IoError
    ensures given.Keys <= entries.Keys
    ensures st != OK ==> LeftByRefusal(rules, s, n, given, entries)
  {
    hide IsAncestor, Reaches, Solved, IndexUpTo, IsSolution, EndsBroken, EntersCycle;
    entries := given;
    var hashToId;
    st, hashToId := BuildHashIndex(s, n);
    if st != OK {
      return;
    }
    var registered: map<Id, Id> := map[];
    var id := 1;
    while id <= n
      invariant 1 <= id <= n + 1
      invariant SolvedBefore(rules, s, n, given, entries, id)
      invariant registered.Keys <= entries.Keys
    {
      ghost var before := entries;
      if id !in entries {
        st, entries, registered := ResolveOne(rules, s, n, hashToId, entries, registered, id);
        if st != OK {
          StuckFirst(rules, s, n, given, entries, id);
          return;
        }
      }
      SolvedOneMore(rules, s, n, given, before, entries, id);
      id := id + 1;
    }
    st := OK;
    AllSolvedIsSound(rules, s, n, entries);
  }

  lemma StuckFirst(rules: Rules, s: Store, n: nat, given: Entries, entries: Entries, id: Id)
    requires SolvedBefore(rules, s, n, given, entries, id) && 1 <= id <= n && id !in entries && !Reaches(s, n, id)
    ensures FirstStuck(s, n, id)
  {
    forall x | 1 <= x < id ensures Reaches(s, n, x) { assert Solved(rules, s, n, entries, x); }
  }

  lemma AllSolvedIsSound(rules: Rules, s: Store, n: nat, m: Entries)
    requires AllSolved(rules, s, n, m) && forall x :: 1 <= x <= n ==> x in m
    ensures forall x :: 1 <= x <= n ==> Reaches(s, n, x)
    ensures IsSolution(rules, s, n, m)
  {
    forall x | 1 <= x <= n ensures Reaches(s, n, x) { assert Solved(rules, s, n, m, x); }
    SolvedIsSolution(rules, s, n, m);
  }

  // ---------------------------------------------------------------- the rebuild

  /** The record a rebuild derives first can be derived: the one active at height 0, or without a chain id 1. */
  ghost predicate FirstDerivable(s: Store, n: nat, active: Active, tip: int) {
    if n > 0 && tip >= 0 then ActiveLinked(s, n, active, NULL_SEED, 0)
    else AllReadable(s, n) && UniqueHashes(s, n) && Reaches(s, n, 1)
  }

  /**
   RebuildAllDerivedFromAuthoritative.  It succeeds on exactly the sound stores with a linked
   active chain, and then yields the one solution of the derivation equation.  A refusal leaves
   nothing in the map exactly if already the first record to be derived could not be, and what it
   leaves is right.
   */
  method RebuildAll(rules: Rules, s: Store, n: nat, active: Active, tip: int)
    returns (ok: bool, st: Status, entries: Entries)
    ensures ok <==> st == OK
    ensures ok <==> Sound(s, n) && (n > 0 && tip >= 0 ==> ActiveChain(s, n, active, NULL_SEED, tip))
    ensures st == IoError <==>
              n > 0 && tip >= 0 && exists h :: FirstBad(s, n, active, NULL_SEED, tip, h) && h !in active
    ensures st == Internal <==> CycleFirst(s, n) && (n > 0 && tip >= 0 ==> ActiveChain(s, n, active, NULL_SEED, tip))
    ensures ok ==> IsSolution(rules, s, n, entries)
    ensures ok ==> forall m :: IsSolution(rules, s, n, m) ==> m == entries
    ensures n > 0 && ActiveChain(s, n, active, NULL_SEED, tip) ==>
              forall h :: 0 <= h <= tip ==> IdAt(active, h) in entries
    ensures !ok ==> (entries == map[] <==> !FirstDerivable(s, n, active, tip))
    ensures UniqueHashes(s, n) ==> AllSolved(rules, s, n, entries)
  {
    entries := map[];
    if tip >= 0 && n > 0 {
      ghost var stop;
      st, entries, stop := ReplayActiveChain(rules, s, n, active, tip, 0, DEFAULT_DERIVED, map[]);
      NothingAppended(rules, s, n, active, NULL_SEED, tip, stop, map[], entries);
      if UniqueHashes(s, n) { ActiveAllSolved(rules, s, n, active, stop, entries); }
      if st != OK {
        return false, st, entries;
      }
      forall h | 0 <= h <= tip ensures IdAt(active, h) in entries {
        assert EntryAt(rules, s, active, NULL_SEED, entries, h);
      }
    }
    ghost var given := entries;
    st, entries := ReplaySideClosure(rules, s, n, entries);
    if st != OK {
      if given == map[] { RefusalFromNothing(rules, s, n, entries); }
      return false, st, entries;
    }
    KeysCounted(entries.Keys, n);
    if |entries| != n {
      return false, Corrupt, entries;
    }
    forall m | IsSolution(rules, s, n, m) ensures m == entries { SolutionUnique(rules, s, n, m, entries); }
    ok := true;
  }

  /** A store whose second record has no parent in it: the rebuild is refused, and leaves the first one's entry. */
  lemma RefusedRebuildKeepsEntries() returns (s: Store, active: Active)
    ensures !Sound(s, 2) && FirstDerivable(s, 2, active, 0)
  {
    var genesis, orphan := NULL_RECORD.(hash := 10), NULL_RECORD.(hash := 11, hashPrev := 99, height := 1);
    s, active := map[1 := genesis, 2 := orphan], map[0 := 1];
    assert !Holds(s, 2, 99, 1) && !Holds(s, 2, 99, 2);
    assert Broken(s, 2, 2);
    BrokenNeverReaches(s, 2, 2);
  }

  lemma {:induction false} KeysCounted(keys: set<Id>, n: nat)
    requires forall id :: id in keys <==> 1 <= id <= n
    ensures |keys| == n
  {
    if n == 0 {
      assert keys == {};
    } else {
      KeysCounted(keys - {n}, n - 1);
    }
  }
}
