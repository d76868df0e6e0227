/** The in-memory generation builder: two passes over the records in the order of height and hash. */
module GenerationBuilders {
  import opened Options
  import opened Chain
  import opened ExternalSort
  import opened Iteration
  import opened BuilderRows
  import opened BuilderActive

  /** Refuse a claimed parent that is absent. */
  method CheckParents(recs: seq<Record>, seen: map<Hash, Id>) returns (ok: bool)
    requires Names(StoreOf(recs), seen, |recs|)
    ensures ok <==> Connected(StoreOf(recs), |recs|)
  {
    hide Names;
    ghost var s, n := StoreOf(recs), |recs|;
    var i := 0;
    while i < |recs|
      invariant 0 <= i <= |recs|
      invariant forall id :: 1 <= id <= i ==> IsRoot(s, id) || ParentId(s, n, id) != 0
    {
      assert Rec(s, i + 1) == recs[i];
      NamesExact(s, n, seen, recs[i].hashPrev);
      if recs[i].hashPrev != 0 && recs[i].hashPrev !in seen {
        assert ParentId(s, n, i + 1) == 0;
        return false;
      }
      i := i + 1;
    }
    ok := true;
  }

  // ---------------------------------------------------------------- the first pass

  function KnownTrust(d: map<Hash, Derived>, h: Hash): nat {
    if h != 0 && h in d then d[h].trust else 0
  }

  /** The trust the first pass gives a record: its own, on top of the parent's if that sorts first, else of nothing. */
  ghost predicate TrustEquation(rules: Rules, s: Store, n: nat, d: map<Hash, Derived>, id: Id) {
    var r := Rec(s, id);
    var below := if ParentFirst(s, n, id) then KnownTrust(d, r.hashPrev) else 0;
    r.hash in d && d[r.hash].trust == (below + BlockTrust(rules, r)) % UINT256
  }

  ghost predicate Visited(sorted: seq<Row>, i: nat, h: Hash) {
    exists j :: 0 <= j < i && j < |sorted| && sorted[j].hash == h
  }

  /** A parent has been visited before its child exactly if its row sorts first. */
  lemma VisitedIffFirst(s: Store, n: nat, sorted: seq<Row>, i: nat)
    requires UniqueHashes(s, n) && ExactRows(s, n, sorted) && Sorted(sorted) && Distinct(sorted) && i < |sorted|
    requires !IsRoot(s, sorted[i].recordId)
    ensures Visited(sorted, i, sorted[i].hashPrev) <==> ParentFirst(s, n, sorted[i].recordId)
  {
    var id := sorted[i].recordId;
    assert sorted[i] == RowOf(s, id);
    ParentInRange(s, n, id);
    if Visited(sorted, i, sorted[i].hashPrev) {
      var j :| 0 <= j < i && sorted[j].hash == sorted[i].hashPrev;
      var p := sorted[j].recordId;
      assert sorted[j] == RowOf(s, p);
      IdOfUnique(s, n, sorted[i].hashPrev, p);
      assert Leq(sorted[j], sorted[i]);
      RowsDiffer(s, n, sorted, j, i);
    }
    if ParentFirst(s, n, id) {
      assert RowOf(s, ParentId(s, n, id)) in sorted;
      var j :| 0 <= j < |sorted| && sorted[j] == RowOf(s, ParentId(s, n, id));
      assert Less(sorted[j], sorted[i]);
    }
  }

  /** Nothing but the trust is set. */
  predicate TrustOnly(e: Derived) {
    e == DEFAULT_DERIVED.(trust := e.trust)
  }

  /** What the first loop knows after i rows. */
  ghost predicate FirstPass(rules: Rules, s: Store, n: nat, sorted: seq<Row>, i: nat, d: map<Hash, Derived>) {
    && (forall h :: h in d <==> Visited(sorted, i, h))
    && (forall h :: h in d ==> TrustOnly(d[h]))
    && (forall j :: 0 <= j < i && j < |sorted| ==> TrustEquation(rules, s, n, d, sorted[j].recordId))
  }

  lemma FirstPassStart(rules: Rules, s: Store, n: nat, sorted: seq<Row>)
    ensures FirstPass(rules, s, n, sorted, 0, map[])
  {
  }

  lemma FirstPassStep(rules: Rules, s: Store, n: nat, sorted: seq<Row>, i: nat, d: map<Hash, Derived>, e: Derived)
    requires UniqueHashes(s, n) && ExactRows(s, n, sorted) && Sorted(sorted) && Distinct(sorted) && i < |sorted|
    requires FirstPass(rules, s, n, sorted, i, d) && TrustOnly(e)
    requires e.trust == (KnownTrust(d, sorted[i].hashPrev) + BlockTrust(rules, Rec(s, sorted[i].recordId))) % UINT256
    ensures FirstPass(rules, s, n, sorted, i + 1, d[sorted[i].hash := e])
  {
    hide TrustEquation, UniqueHashes, Sorted, Distinct, TrustOnly;
    var d' := d[sorted[i].hash := e];
    forall h ensures h in d' <==> Visited(sorted, i + 1, h) {
      if h == sorted[i].hash { assert 0 <= i < i + 1; }
      if Visited(sorted, i, h) {
        var j :| 0 <= j < i && sorted[j].hash == h;
        assert 0 <= j < i + 1;
      }
    }
    forall j | 0 <= j < i + 1 ensures TrustEquation(rules, s, n, d', sorted[j].recordId) {
      if j < i { FirstPassKept(rules, s, n, sorted, i, d, e, j); } else { FirstPassNew(rules, s, n, sorted, i, d, e); }
    }
  }

  lemma FirstPassNew(rules: Rules, s: Store, n: nat, sorted: seq<Row>, i: nat, d: map<Hash, Derived>, e: Derived)
    requires UniqueHashes(s, n) && ExactRows(s, n, sorted) && Sorted(sorted) && Distinct(sorted) && i < |sorted|
    requires forall h :: h in d <==> Visited(sorted, i, h)
    requires e.trust == (KnownTrust(d, sorted[i].hashPrev) + BlockTrust(rules, Rec(s, sorted[i].recordId))) % UINT256
    ensures TrustEquation(rules, s, n, d[sorted[i].hash := e], sorted[i].recordId)
  {
    var id := sorted[i].recordId;
    assert sorted[i] == RowOf(s, id);
    if !IsRoot(s, id) {
      VisitedIffFirst(s, n, sorted, i);
      ParentInRange(s, n, id);
    }
  }

  lemma FirstPassKept(rules: Rules, s: Store, n: nat, sorted: seq<Row>, i: nat, d: map<Hash, Derived>, e: Derived,
                      j: nat)
    requires UniqueHashes(s, n) && ExactRows(s, n, sorted) && Sorted(sorted) && Distinct(sorted) && j < i < |sorted|
    requires TrustEquation(rules, s, n, d, sorted[j].recordId)
    ensures TrustEquation(rules, s, n, d[sorted[i].hash := e], sorted[j].recordId)
  {
    var id := sorted[j].recordId;
    assert sorted[j] == RowOf(s, id);
    RowsDiffer(s, n, sorted, j, i);
    if ParentFirst(s, n, id) {
      VisitedIffFirst(s, n, sorted, j);
      var k :| 0 <= k < j && sorted[k].hash == sorted[j].hashPrev;
      RowsDiffer(s, n, sorted, k, i);
    }
  }

  /** The first height-ordered loop: linear accumulation of trust; an absent parent counts as 0. */
  method TrustPass(rules: Rules, recs: seq<Record>, sorted: seq<Row>) returns (d: map<Hash, Derived>)
    requires UniqueHashes(StoreOf(recs), |recs|) && ExactRows(StoreOf(recs), |recs|, sorted)
    requires Sorted(sorted) && Distinct(sorted)
    ensures FirstPass(rules, StoreOf(recs), |recs|, sorted, |sorted|, d)
  {
    hide UniqueHashes, Sorted, Distinct, FirstPass;
    ghost var s, n := StoreOf(recs), |recs|;
    FirstPassStart(rules, s, n, sorted);
    d := map[];
    var i := 0;
    while i < |sorted|
      invariant 0 <= i <= |sorted|
      invariant FirstPass(rules, s, n, sorted, i, d)
    {
      var id := sorted[i].recordId;
      var rec := recs[id - 1];
      assert rec == Rec(s, id) && sorted[i] == RowOf(s, id);
      var parentTrust := 0;
      if rec.hashPrev != 0 && rec.hashPrev in d {
        parentTrust := d[rec.hashPrev].trust;
      }
      var e := DEFAULT_DERIVED.(trust := (parentTrust + BlockTrust(rules, rec)) % UINT256);
      FirstPassStep(rules, s, n, sorted, i, d, e);
      d := d[sorted[i].hash := e];
      i := i + 1;
    }
  }

  // ---------------------------------------------------------------- the second pass

  /** What the second loop computes for one record from what is known so far. */
  function SecondEntry(rules: Rules, rec: Record, d: map<Hash, Derived>): Derived
    requires rec.hash in d
  {
    var parent := if rec.hashPrev != 0 && rec.hashPrev in d then d[rec.hashPrev] else DEFAULT_DERIVED;
    Derived(d[rec.hash].trust, ChecksumFrom(rules, rec, parent.checksum),
            ModifierTimeFrom(rec, parent.modifierTime), SizeOf(rules, rec))
  }

  /** The entry the builder gives a record: derived from its parent's if that sorts first, else from the default one. */
  ghost predicate EntryEquation(rules: Rules, s: Store, n: nat, d: map<Hash, Derived>, id: Id) {
    var r := Rec(s, id);
    && r.hash in d && (ParentFirst(s, n, id) ==> r.hashPrev in d)
    && d[r.hash] == Derive(rules, r, if ParentFirst(s, n, id) then d[r.hashPrev] else DEFAULT_DERIVED)
  }

  /** The trusts are those of the first pass. */
  ghost predicate SameTrusts(trusts: map<Hash, Derived>, d: map<Hash, Derived>) {
    d.Keys == trusts.Keys && forall h :: h in d ==> d[h].trust == trusts[h].trust
  }

  /** What the second loop knows after i rows: those entries are complete, the others still have their trust alone. */
  ghost predicate SecondPass(rules: Rules, s: Store, n: nat, sorted: seq<Row>, i: nat, d: map<Hash, Derived>) {
    && (forall j :: 0 <= j < i && j < |sorted| ==> EntryEquation(rules, s, n, d, sorted[j].recordId))
    && (forall j :: i <= j < |sorted| ==> sorted[j].hash in d && TrustOnly(d[sorted[j].hash]))
  }

  /** A parent that does not sort first has not been completed yet. */
  lemma ParentAsFound(rules: Rules, s: Store, n: nat, sorted: seq<Row>, i: nat, trusts: map<Hash, Derived>,
                      d: map<Hash, Derived>)
    requires UniqueHashes(s, n) && ExactRows(s, n, sorted) && Sorted(sorted) && Distinct(sorted) && i < |sorted|
    requires FirstPass(rules, s, n, sorted, |sorted|, trusts) && SameTrusts(trusts, d)
    requires SecondPass(rules, s, n, sorted, i, d) && !IsRoot(s, sorted[i].recordId)
    ensures if ParentFirst(s, n, sorted[i].recordId) then sorted[i].hashPrev in d
            else sorted[i].hashPrev in d ==> TrustOnly(d[sorted[i].hashPrev])
  {
    hide ParentFirst, EntryEquation, TrustEquation;
    VisitedIffFirst(s, n, sorted, i);
    if Visited(sorted, i, sorted[i].hashPrev) {
      assert Visited(sorted, |sorted|, sorted[i].hashPrev);
    } else if sorted[i].hashPrev in d {
      var j :| 0 <= j < |sorted| && sorted[j].hash == sorted[i].hashPrev;
      assert j >= i;
    }
  }

  /** So it hands down no checksum and no time, as its trust was not handed down before. */
  lemma SecondEntryIs(rules: Rules, s: Store, n: nat, sorted: seq<Row>, i: nat, trusts: map<Hash, Derived>,
                      d: map<Hash, Derived>)
    requires UniqueHashes(s, n) && ExactRows(s, n, sorted) && Sorted(sorted) && Distinct(sorted) && i < |sorted|
    requires FirstPass(rules, s, n, sorted, |sorted|, trusts) && SameTrusts(trusts, d)
    requires SecondPass(rules, s, n, sorted, i, d)
    ensures var r := Rec(s, sorted[i].recordId);
            && r.hash in d && (ParentFirst(s, n, sorted[i].recordId) ==> r.hashPrev in d)
            && SecondEntry(rules, r, d)
               == Derive(rules, r, if ParentFirst(s, n, sorted[i].recordId) then d[r.hashPrev] else DEFAULT_DERIVED)
  {
    hide UniqueHashes, Sorted, Distinct, EntryEquation;
    var id := sorted[i].recordId;
    assert sorted[i] == RowOf(s, id);
    assert TrustEquation(rules, s, n, trusts, id);
    if !IsRoot(s, id) { ParentAsFound(rules, s, n, sorted, i, trusts, d); }
    SecondFromTrust(rules, s, n, trusts, d, id);
  }

  lemma SecondFromTrust(rules: Rules, s: Store, n: nat, trusts: map<Hash, Derived>, d: map<Hash, Derived>, id: Id)
    requires TrustEquation(rules, s, n, trusts, id) && SameTrusts(trusts, d)
    requires !IsRoot(s, id) ==>
               if ParentFirst(s, n, id) then Rec(s, id).hashPrev in d
               else Rec(s, id).hashPrev in d ==> TrustOnly(d[Rec(s, id).hashPrev])
    ensures var r := Rec(s, id);
            && r.hash in d && (ParentFirst(s, n, id) ==> r.hashPrev in d)
            && SecondEntry(rules, r, d)
               == Derive(rules, r, if ParentFirst(s, n, id) then d[r.hashPrev] else DEFAULT_DERIVED)
  {
    hide Digest32, BlockTrust, SizeOf;
  }

  lemma SecondKept(rules: Rules, s: Store, n: nat, sorted: seq<Row>, i: nat, d: map<Hash, Derived>, e: Derived, j: nat)
    requires UniqueHashes(s, n) && ExactRows(s, n, sorted) && Sorted(sorted) && Distinct(sorted) && j < i < |sorted|
    requires EntryEquation(rules, s, n, d, sorted[j].recordId)
    ensures EntryEquation(rules, s, n, d[sorted[i].hash := e], sorted[j].recordId)
  {
    var id := sorted[j].recordId;
    assert sorted[j] == RowOf(s, id);
    RowsDiffer(s, n, sorted, j, i);
    if ParentFirst(s, n, id) {
      VisitedIffFirst(s, n, sorted, j);
      var k :| 0 <= k < j && sorted[k].hash == sorted[j].hashPrev;
      RowsDiffer(s, n, sorted, k, i);
    }
  }

  lemma SecondStep(rules: Rules, s: Store, n: nat, sorted: seq<Row>, i: nat, trusts: map<Hash, Derived>,
                   d: map<Hash, Derived>)
    requires UniqueHashes(s, n) && ExactRows(s, n, sorted) && Sorted(sorted) && Distinct(sorted) && i < |sorted|
    requires FirstPass(rules, s, n, sorted, |sorted|, trusts) && SameTrusts(trusts, d)
    requires SecondPass(rules, s, n, sorted, i, d)
    ensures sorted[i].hash == Rec(s, sorted[i].recordId).hash && sorted[i].hash in d
    ensures SecondPass(rules, s, n, sorted, i + 1,
                       d[sorted[i].hash := SecondEntry(rules, Rec(s, sorted[i].recordId), d)])
  {
    hide UniqueHashes, Sorted, Distinct, FirstPass, EntryEquation, SameTrusts, SecondEntry;
    var id := sorted[i].recordId;
    assert sorted[i] == RowOf(s, id);
    SecondEntryIs(rules, s, n, sorted, i, trusts, d);
    var e := SecondEntry(rules, Rec(s, id), d);
    var d' := d[sorted[i].hash := e];
    forall j | 0 <= j < i + 1 ensures EntryEquation(rules, s, n, d', sorted[j].recordId) {
      if j < i {
        SecondKept(rules, s, n, sorted, i, d, e, j);
      } else {
        SecondNew(rules, s, n, sorted, i, d, e);
      }
    }
    forall j | i + 1 <= j < |sorted| ensures sorted[j].hash in d' && TrustOnly(d'[sorted[j].hash]) {
      RowsDiffer(s, n, sorted, i, j);
    }
  }

  lemma SecondNew(rules: Rules, s: Store, n: nat, sorted: seq<Row>, i: nat, d: map<Hash, Derived>, e: Derived)
    requires UniqueHashes(s, n) && ExactRows(s, n, sorted) && Sorted(sorted) && Distinct(sorted) && i < |sorted|
    requires var r := Rec(s, sorted[i].recordId);
             && (ParentFirst(s, n, sorted[i].recordId) ==> r.hashPrev in d)
             && e == Derive(rules, r, if ParentFirst(s, n, sorted[i].recordId) then d[r.hashPrev] else DEFAULT_DERIVED)
    ensures EntryEquation(rules, s, n, d[sorted[i].hash := e], sorted[i].recordId)
  {
    var id := sorted[i].recordId;
    assert sorted[i] == RowOf(s, id);
    if ParentFirst(s, n, id) {
      VisitedIffFirst(s, n, sorted, i);
      var k :| 0 <= k < i && sorted[k].hash == sorted[i].hashPrev;
      RowsDiffer(s, n, sorted, k, i);
    }
  }

  /** The second height-ordered loop: checksum, modifier time and size from the same logical parent. */
  method EntryPass(rules: Rules, recs: seq<Record>, sorted: seq<Row>, trusts: map<Hash, Derived>)
    returns (d: map<Hash, Derived>)
    requires UniqueHashes(StoreOf(recs), |recs|) && ExactRows(StoreOf(recs), |recs|, sorted)
    requires Sorted(sorted) && Distinct(sorted)
    requires FirstPass(rules, StoreOf(recs), |recs|, sorted, |sorted|, trusts)
    ensures SameTrusts(trusts, d)
    ensures forall id :: 1 <= id <= |recs| ==> EntryEquation(rules, StoreOf(recs), |recs|, d, id)
  {
    hide UniqueHashes, Sorted, Distinct, FirstPass, SecondPass;
    ghost var s, n := StoreOf(recs), |recs|;
    d := trusts;
    SecondStart(rules, s, n, sorted, d);
    var i := 0;
    while i < |sorted|
      invariant 0 <= i <= |sorted|
      invariant SameTrusts(trusts, d)
      invariant SecondPass(rules, s, n, sorted, i, d)
    {
      var rec := recs[sorted[i].recordId - 1];
      assert rec == Rec(s, sorted[i].recordId);
      SecondStep(rules, s, n, sorted, i, trusts, d);
      var dc := SecondEntry(rules, rec, d);
      d := d[rec.hash := dc];
      i := i + 1;
    }
    SecondEnd(rules, s, n, sorted, d);
  }

  lemma SecondStart(rules: Rules, s: Store, n: nat, sorted: seq<Row>, d: map<Hash, Derived>)
    requires FirstPass(rules, s, n, sorted, |sorted|, d)
    ensures SecondPass(rules, s, n, sorted, 0, d)
  {
    forall j | 0 <= j < |sorted| ensures sorted[j].hash in d { assert Visited(sorted, |sorted|, sorted[j].hash); }
  }

  lemma SecondEnd(rules: Rules, s: Store, n: nat, sorted: seq<Row>, d: map<Hash, Derived>)
    requires ExactRows(s, n, sorted) && SecondPass(rules, s, n, sorted, |sorted|, d)
    ensures forall id :: 1 <= id <= n ==> EntryEquation(rules, s, n, d, id)
  {
    forall id | 1 <= id <= n ensures EntryEquation(rules, s, n, d, id) {
      assert RowOf(s, id) in sorted;
      var j :| 0 <= j < |sorted| && sorted[j] == RowOf(s, id);
    }
  }

  // ---------------------------------------------------------------- the build

  /** The entries by RecordId, as they are written out. */
  ghost function ById(s: Store, n: nat, d: map<Hash, Derived>): map<Id, Derived> {
    map id: Id | 1 <= id <= n && Rec(s, id).hash in d :: d[Rec(s, id).hash]
  }

  lemma EquationsBuilt(rules: Rules, s: Store, n: nat, d: map<Hash, Derived>)
    requires forall id :: 1 <= id <= n ==> EntryEquation(rules, s, n, d, id)
    ensures Built(rules, s, n, ById(s, n, d))
  {
    var e := ById(s, n, d);
    forall id | 1 <= id <= n ensures id in e && e[id] == d[Rec(s, id).hash] {
      assert EntryEquation(rules, s, n, d, id);
    }
    forall id | 1 <= id <= n ensures BuiltAt(rules, s, n, e, id) {
      assert EntryEquation(rules, s, n, d, id);
      ParentInRange(s, n, id);
    }
  }

  method CheckRecords(recs: seq<Record>) returns (ok: bool)
    ensures ok <==> AllReadable(StoreOf(recs), |recs|)
  {
    ghost var s, n := StoreOf(recs), |recs|;
    var i := 0;
    while i < |recs|
      invariant 0 <= i <= |recs|
      invariant forall id :: 1 <= id <= i ==> Readable(s, n, id)
    {
      assert s[i + 1] == recs[i];
      if !ValidRecord(recs[i]) {
        assert !Readable(s, n, i + 1);
        return false;
      }
      i := i + 1;
    }
    ok := true;
  }

  /** What the builder accepts: valid records of distinct hash, a dense active chain, every claimed parent on file. */
  ghost predicate Buildable(s: Store, n: nat, best: Option<Hash>) {
    && UniqueHashes(s, n) && AllReadable(s, n) && Connected(s, n)
    && best.Some? && ActiveAccepted(s, n, best.value)
  }

  /** Build, as far as the active chain and derived state go. */
  method BuildDerived(rules: Rules, recs: seq<Record>, best: Option<Hash>)
    returns (ok: bool, active: seq<Id>, d: map<Hash, Derived>, ghost path: seq<Id>)
    requires UniqueHashes(StoreOf(recs), |recs|) && best.Some? ==>
               WalkEnds(StoreOf(recs), |recs|, IdOf(StoreOf(recs), |recs|, best.value))
    ensures ok <==> Buildable(StoreOf(recs), |recs|, best)
    ensures ok ==> IsPath(StoreOf(recs), |recs|, IdOf(StoreOf(recs), |recs|, best.value), path)
    ensures ok ==> LaidOut(StoreOf(recs), path, active)
    ensures ok ==> Built(rules, StoreOf(recs), |recs|, ById(StoreOf(recs), |recs|, d))
  {
    hide *;
    ghost var s, n := StoreOf(recs), |recs|;
    active, d, path := [], map[], [];
    var seen;
    ok, seen := CollectHashes(recs);
    BuildableParts(s, n, best);
    if !ok {
      return;
    }
    ok := CheckRecords(recs);
    if !ok {
      return;
    }
    ok, active, path := CollectActive(recs, seen, best);
    if !ok {
      return;
    }
    ok := CheckParents(recs, seen);
    if !ok {
      return;
    }
    var rows := CollectRows(recs);
    var sorted := SortChunk(rows);
    SameRows(s, n, rows, sorted);
    SortedDistinct(rows, sorted);
    var trusts := TrustPass(rules, recs, sorted);
    d := EntryPass(rules, recs, sorted, trusts);
    EquationsBuilt(rules, s, n, d);
  }

  lemma BuildableParts(s: Store, n: nat, best: Option<Hash>)
    ensures Buildable(s, n, best) <==>
              && UniqueHashes(s, n) && AllReadable(s, n) && Connected(s, n)
              && best.Some? && ActiveAccepted(s, n, best.value)
  {
  }

  // ---------------------------------------------------------------- accepted stores on which it goes wrong

  function Plain(hash: Hash, prev: Hash, height: nat): Record {
    NULL_RECORD.(hash := hash, hashPrev := prev, height := height)
  }

  /** Every block weighs 1. */
  function Unit(): Rules {
    Rules((_, _, _, _, _) => 1, _ => 0, _ => 0, 10, true)
  }

  /** A chain of three records; the heights of the upper two are free. */
  function Three(a: nat, b: nat): seq<Record> {
    [Plain(10, 0, 0), Plain(11, 10, a), Plain(12, 11, b)]
  }

  lemma ThreeRecords(a: nat, b: nat)
    requires a > 0 && b > 0
    ensures var s := StoreOf(Three(a, b));
            && Rec(s, 1) == Plain(10, 0, 0) && Rec(s, 2) == Plain(11, 10, a) && Rec(s, 3) == Plain(12, 11, b)
            && UniqueHashes(s, 3) && AllReadable(s, 3) && Connected(s, 3)
            && IdOf(s, 3, 10) == 1 && IdOf(s, 3, 12) == 3
            && ParentId(s, 3, 2) == 1 && ParentId(s, 3, 3) == 2
  {
    var s := StoreOf(Three(a, b));
    assert Rec(s, 1) == Plain(10, 0, 0) && Rec(s, 2) == Plain(11, 10, a) && Rec(s, 3) == Plain(12, 11, b);
    IdOfUnique(s, 3, 10, 1);
    IdOfUnique(s, 3, 11, 2);
    IdOfUnique(s, 3, 12, 3);
  }

  lemma ThreeTrusts(a: nat, b: nat)
    requires a > 0 && b > 0
    ensures var s := StoreOf(Three(a, b)); Grounded(s, 3, 3, 2) && Value(Unit(), s, 3, 3, 2).trust == 3
  {
    var s := StoreOf(Three(a, b));
    ThreeRecords(a, b);
    assert Grounded(s, 3, 1, 0) && Value(Unit(), s, 3, 1, 0).trust == 1;
    assert Grounded(s, 3, 2, 1) && Value(Unit(), s, 3, 2, 1).trust == 2;
  }

  /** Whatever is built of a chain whose middle record is the highest misses that record's trust. */
  lemma MiddleLost(a: nat, b: nat, e: map<Id, Derived>)
    requires 0 < b < a && Built(Unit(), StoreOf(Three(a, b)), 3, e)
    ensures e[3].trust == 1
  {
    var s := StoreOf(Three(a, b));
    ThreeRecords(a, b);
    assert BuiltAt(Unit(), s, 3, e, 3) && !ParentFirst(s, 3, 3);
  }

  /** An accepted store with a late parent on a side branch: the child misses the trust of its ancestry. */
  lemma LateParentLosesTrust() returns (rules: Rules, recs: seq<Record>, best: Hash)
    ensures recs == Three(7, 1) && Buildable(StoreOf(recs), 3, Some(best)) && Grounded(StoreOf(recs), 3, 3, 2)
    ensures Value(rules, StoreOf(recs), 3, 3, 2).trust == 3
    ensures forall e: map<Id, Derived> :: Built(rules, StoreOf(recs), 3, e) ==> e[3].trust == 1
  {
    rules, recs, best := Unit(), Three(7, 1), 10;
    var s := StoreOf(recs);
    ThreeRecords(7, 1);
    ThreeTrusts(7, 1);
    var path := [1];
    assert Rec(s, path[0]).height == 0;
    assert HeightOccurs(s, path, 0);
    assert IsPath(s, 3, 1, path) && Gapless(s, path);
    forall e: map<Id, Derived> | Built(rules, s, 3, e) ensures e[3].trust == 1 { MiddleLost(7, 1, e); }
  }

  /** The same on the active chain itself, whose layout by height is then not linked. */
  lemma UnlinkedActiveAccepted() returns (rules: Rules, recs: seq<Record>, best: Hash, path: seq<Id>)
    ensures recs == Three(2, 1) && Buildable(StoreOf(recs), 3, Some(best)) && Grounded(StoreOf(recs), 3, 3, 2)
    ensures IsPath(StoreOf(recs), 3, IdOf(StoreOf(recs), 3, best), path) && path[0] == 3
    ensures forall active :: LaidOut(StoreOf(recs), path, active) ==> !Linked(StoreOf(recs), 3, active)
    ensures Value(rules, StoreOf(recs), 3, 3, 2).trust == 3
    ensures forall e: map<Id, Derived> :: Built(rules, StoreOf(recs), 3, e) ==> e[3].trust == 1
  {
    rules, recs, best, path := Unit(), Three(2, 1), 12, [3, 2, 1];
    var s := StoreOf(recs);
    ThreeRecords(2, 1);
    ThreeTrusts(2, 1);
    ThreeGapless(path);
    forall active | LaidOut(s, path, active) ensures !Linked(s, 3, active) { LinkedIff(s, 3, 3, path, active); }
    forall e: map<Id, Derived> | Built(rules, s, 3, e) ensures e[3].trust == 1 { MiddleLost(2, 1, e); }
  }

  lemma ThreeGapless(path: seq<Id>)
    requires path == [3, 2, 1]
    ensures var s := StoreOf(Three(2, 1)); IsPath(s, 3, 3, path) && Gapless(s, path) && !StepsDown(s, path)
  {
    var s := StoreOf(Three(2, 1));
    ThreeRecords(2, 1);
    assert Rec(s, path[2]).height == 0 && Rec(s, path[0]).height == 1 && Rec(s, path[1]).height == 2;
    assert HeightOccurs(s, path, 0) && HeightOccurs(s, path, 1) && HeightOccurs(s, path, 2);
  }
}
