/** The low-memory generation builder: an external sort and a file of slots, and how all ways of deriving agree. */
module LowMemoryBuilder {
  import opened Options
  import opened Chain
  import opened ExternalSort
  import opened Iteration
  import opened BuilderRows
  import opened GenerationBuilders

  /** The low-memory pass hashes every parentless record, genesis or not. */
  function Unguarded(rules: Rules): Rules {
    rules.(guardsRoots := false)
  }

  /** What the pass insists on besides resolvable parents. */
  ghost predicate Acceptable(r: Record) {
    (r.nFlags % 2 == 1 <==> r.prevoutStakeHash != 0) && (r.hashPrev == 0 ==> r.height == 0)
  }

  /** A record the pass lets through: acceptable, with its claimed parent on file. */
  ghost predicate Accepted(s: Store, n: nat, id: Id) {
    Acceptable(Rec(s, id)) && (IsRoot(s, id) || ParentId(s, n, id) != 0)
  }

  /** The scratch file of derived slots: what was written, and where the file ends. */
  datatype Scratch = Scratch(slots: map<Id, Derived>, end: nat)

  /** A slot never written reads as zeroes before the end of the file and fails beyond it. */
  function ReadSlot(f: Scratch, id: Id): Option<Derived> {
    if id in f.slots then Some(f.slots[id]) else if id <= f.end then Some(DEFAULT_DERIVED) else None
  }

  function WriteSlot(f: Scratch, id: Id, d: Derived): Scratch {
    Scratch(f.slots[id := d], if f.end < id then id else f.end)
  }

  // ---------------------------------------------------------------- one row

  lemma IndexedParent(s: Store, n: nat, index: seq<Row>, id: Id, row: Row)
    requires UniqueHashes(s, n) && ExactRows(s, n, index) && 1 <= id <= n
    requires row in index && row.hash == Rec(s, id).hashPrev
    ensures ParentId(s, n, id) == row.recordId && 1 <= row.recordId <= n
  {
    var k :| 0 <= k < |index| && index[k] == row;
    IdOfUnique(s, n, row.hash, row.recordId);
  }

  lemma ParentIndexed(s: Store, n: nat, index: seq<Row>, id: Id)
    requires ExactRows(s, n, index) && 1 <= id <= n && ParentId(s, n, id) != 0
    ensures exists r :: r in index && r.hash == Rec(s, id).hashPrev
  {
    ParentInRange(s, n, id);
    assert RowOf(s, ParentId(s, n, id)) in index;
  }

  /** The entry of a parentless row. */
  function RootEntry(rules: Rules, rec: Record): Derived {
    Derived(BlockTrust(rules, rec) % UINT256,
            Digest32(rules, Preimage(None, rec.nFlags, Proof(rec), rec.nStakeModifier)),
            if GeneratedStakeModifier(rec) then Some(rec.nTime) else None,
            SizeOf(rules, rec))
  }

  /** The entry of a row over what its parent's slot holds. */
  function ChildEntry(rules: Rules, rec: Record, pd: Derived): Derived {
    Derived((pd.trust + BlockTrust(rules, rec)) % UINT256,
            Digest32(rules, Preimage(Some(pd.checksum), rec.nFlags, Proof(rec), rec.nStakeModifier)),
            if GeneratedStakeModifier(rec) then Some(rec.nTime) else pd.modifierTime,
            SizeOf(rules, rec))
  }

  /** With and without a parent this is the derivation without the guard. */
  lemma EntryIsDerive(rules: Rules, rec: Record, pd: Derived)
    ensures rec.hashPrev == 0 ==> RootEntry(rules, rec) == Derive(Unguarded(rules), rec, DEFAULT_DERIVED)
    ensures rec.hashPrev != 0 ==> ChildEntry(rules, rec, pd) == Derive(Unguarded(rules), rec, pd)
  {
  }

  /** One step of the derived pass: the entry of a row from its parent's slot. */
  method SlotEntry(rules: Rules, rec: Record, index: seq<Row>, f: Scratch, ghost s: Store, ghost n: nat, ghost id: Id)
    returns (ok: bool, de: Derived)
    requires 1 <= id <= n && Rec(s, id) == rec && UniqueHashes(s, n)
    requires HashAscending(index) && ExactRows(s, n, index)
    ensures ok <==> Accepted(s, n, id) && (IsRoot(s, id) || ReadSlot(f, ParentId(s, n, id)).Some?)
    ensures ok ==> de == Derive(Unguarded(rules), rec,
                                if IsRoot(s, id) then DEFAULT_DERIVED else ReadSlot(f, ParentId(s, n, id)).value)
  {
    hide RootEntry, ChildEntry, UniqueHashes, ExactRows, HashAscending, Derive;
    de := DEFAULT_DERIVED;
    if !PosClassificationConsistent(rec) {
      return false, de;
    }
    if rec.hashPrev == 0 {
      if rec.height != 0 {
        return false, de;
      }
      EntryIsDerive(rules, rec, de);
      de := RootEntry(rules, rec);
    } else {
      var found, pp := BinSearchFixed(index, rec.hashPrev);
      if ParentId(s, n, id) != 0 { ParentIndexed(s, n, index, id); }
      if !found {
        return false, de;
      }
      IndexedParent(s, n, index, id, pp);
      var slot := ReadSlot(f, pp.recordId);
      if slot.None? {
        return false, de;
      }
      EntryIsDerive(rules, rec, slot.value);
      de := ChildEntry(rules, rec, slot.value);
    }
    ok := true;
  }

  // ---------------------------------------------------------------- the pass

  /** An earlier row has a RecordId that reaches as far as x: the file extends over the slot of x. */
  ghost predicate Covered(s: Store, n: nat, id: Id, x: Id) {
    exists y: Id :: 1 <= y <= n && x <= y && Less(RowOf(s, y), RowOf(s, id))
  }

  /** A record the pass can derive: accepted, and if it claims a parent, the parent's slot can be read. */
  ghost predicate Derivable(s: Store, n: nat, id: Id) {
    Accepted(s, n, id) && (IsRoot(s, id) || Covered(s, n, id, ParentId(s, n, id)))
  }

  /** What the file holds after i rows. */
  ghost predicate Filled(rules: Rules, s: Store, n: nat, sorted: seq<Row>, i: nat, f: Scratch) {
    && (forall y :: y in f.slots <==> Passed(sorted, i, y))
    && (forall y :: y in f.slots ==> y <= f.end) && (f.end == 0 || f.end in f.slots)
    && (forall j :: 0 <= j < i && j < |sorted| ==> BuiltAt(rules, s, n, f.slots, sorted[j].recordId))
  }

  /** A parent's slot holds its entry if its row sorts first, reads as zeroes if covered, and fails otherwise. */
  lemma ParentSlot(rules: Rules, s: Store, n: nat, sorted: seq<Row>, i: nat, f: Scratch)
    requires UniqueHashes(s, n) && ExactRows(s, n, sorted) && Sorted(sorted) && Distinct(sorted) && i < |sorted|
    requires Filled(rules, s, n, sorted, i, f)
    requires !IsRoot(s, sorted[i].recordId) && ParentId(s, n, sorted[i].recordId) != 0
    ensures var id := sorted[i].recordId; var p := ParentId(s, n, id);
            && (p in f.slots <==> ParentFirst(s, n, id))
            && (ReadSlot(f, p).Some? <==> Covered(s, n, id, p))
            && (ReadSlot(f, p).Some? ==> ReadSlot(f, p).value == if p in f.slots then f.slots[p] else DEFAULT_DERIVED)
  {
    hide UniqueHashes, Sorted, Distinct, BuiltAt, Less;
    var id := sorted[i].recordId;
    var p := ParentId(s, n, id);
    assert sorted[i] == RowOf(s, id);
    ParentInRange(s, n, id);
    PassedIffLess(s, n, sorted, i, p);
    if ReadSlot(f, p).Some? {
      var y := if p in f.slots then p else f.end;
      PassedInRange(s, n, sorted, i, y);
      PassedIffLess(s, n, sorted, i, y);
      assert 1 <= y <= n && p <= y;
    }
    if Covered(s, n, id, p) {
      var y: Id :| 1 <= y <= n && p <= y && Less(RowOf(s, y), RowOf(s, id));
      PassedIffLess(s, n, sorted, i, y);
    }
  }

  lemma PassedInRange(s: Store, n: nat, sorted: seq<Row>, i: nat, y: Id)
    requires ExactRows(s, n, sorted) && Passed(sorted, i, y)
    ensures 1 <= y <= n
  {
  }

  lemma FilledNew(rules: Rules, s: Store, n: nat, sorted: seq<Row>, i: nat, f: Scratch, de: Derived)
    requires UniqueHashes(s, n) && ExactRows(s, n, sorted) && Sorted(sorted) && Distinct(sorted) && i < |sorted|
    requires Filled(rules, s, n, sorted, i, f) && Derivable(s, n, sorted[i].recordId)
    requires var id := sorted[i].recordId;
             && (!IsRoot(s, id) ==> ReadSlot(f, ParentId(s, n, id)).Some?)
             && de == Derive(rules, Rec(s, id),
                             if IsRoot(s, id) then DEFAULT_DERIVED else ReadSlot(f, ParentId(s, n, id)).value)
    ensures BuiltAt(rules, s, n, f.slots[sorted[i].recordId := de], sorted[i].recordId)
  {
    hide UniqueHashes, Sorted, Distinct, Derive, Covered, Filled;
    var id := sorted[i].recordId;
    if !IsRoot(s, id) {
      ParentSlot(rules, s, n, sorted, i, f);
      if ParentFirst(s, n, id) { NotOwnParent(s, n, id); }
    }
  }

  lemma NotOwnParent(s: Store, n: nat, id: Id)
    requires ParentFirst(s, n, id)
    ensures ParentId(s, n, id) != id
  {
  }

  lemma FilledKept(rules: Rules, s: Store, n: nat, sorted: seq<Row>, i: nat, f: Scratch, de: Derived, j: nat)
    requires UniqueHashes(s, n) && ExactRows(s, n, sorted) && Sorted(sorted) && Distinct(sorted) && j < i < |sorted|
    requires Filled(rules, s, n, sorted, i, f)
    ensures BuiltAt(rules, s, n, f.slots[sorted[i].recordId := de], sorted[j].recordId)
  {
    hide UniqueHashes, Sorted, Distinct, Derive, Less;
    var id := sorted[j].recordId;
    assert BuiltAt(rules, s, n, f.slots, id);
    IdsDiffer(s, n, sorted, j, i);
    if ParentFirst(s, n, id) {
      var p := ParentId(s, n, id);
      ParentInRange(s, n, id);
      assert sorted[j] == RowOf(s, id);
      PassedIffLess(s, n, sorted, j, p);
      var k :| 0 <= k < j && sorted[k].recordId == p;
      IdsDiffer(s, n, sorted, k, i);
    }
  }

  lemma IdsDiffer(s: Store, n: nat, sorted: seq<Row>, i: nat, j: nat)
    requires ExactRows(s, n, sorted) && Distinct(sorted) && i < j < |sorted|
    ensures sorted[i].recordId != sorted[j].recordId
  {
    assert sorted[i] == RowOf(s, sorted[i].recordId) && sorted[j] == RowOf(s, sorted[j].recordId);
  }

  lemma FilledStep(rules: Rules, s: Store, n: nat, sorted: seq<Row>, i: nat, f: Scratch, de: Derived)
    requires UniqueHashes(s, n) && ExactRows(s, n, sorted) && Sorted(sorted) && Distinct(sorted) && i < |sorted|
    requires Filled(rules, s, n, sorted, i, f)
    requires BuiltAt(rules, s, n, f.slots[sorted[i].recordId := de], sorted[i].recordId)
    ensures Filled(rules, s, n, sorted, i + 1, WriteSlot(f, sorted[i].recordId, de))
  {
    hide UniqueHashes, Sorted, Distinct, BuiltAt;
    var id := sorted[i].recordId;
    var f' := WriteSlot(f, id, de);
    forall y ensures y in f'.slots <==> Passed(sorted, i + 1, y) { PassedStep(sorted, i, y); }
    forall j | 0 <= j < i + 1 ensures BuiltAt(rules, s, n, f'.slots, sorted[j].recordId) {
      if j < i { FilledKept(rules, s, n, sorted, i, f, de, j); }
    }
  }

  lemma PassedStep(sorted: seq<Row>, i: nat, y: Id)
    requires i < |sorted|
    ensures Passed(sorted, i + 1, y) <==> Passed(sorted, i, y) || y == sorted[i].recordId
  {
    if Passed(sorted, i, y) {
      var j :| 0 <= j < i && sorted[j].recordId == y;
      assert 0 <= j < i + 1;
    }
    if y == sorted[i].recordId { assert 0 <= i < i + 1; }
  }

  lemma FilledEnd(rules: Rules, s: Store, n: nat, sorted: seq<Row>, f: Scratch)
    requires ExactRows(s, n, sorted) && Filled(rules, s, n, sorted, |sorted|, f)
    ensures Built(rules, s, n, f.slots)
  {
    hide BuiltAt;
    forall id ensures id in f.slots <==> 1 <= id <= n {
      if id in f.slots { PassedInRange(s, n, sorted, |sorted|, id); }
      if 1 <= id <= n {
        assert RowOf(s, id) in sorted;
        var j :| 0 <= j < |sorted| && sorted[j] == RowOf(s, id);
        assert Passed(sorted, |sorted|, id);
      }
    }
    forall id | 1 <= id <= n ensures BuiltAt(rules, s, n, f.slots, id) {
      assert id in f.slots;
      var j :| 0 <= j < |sorted| && sorted[j].recordId == id;
    }
  }

  /** The derived pass over the height-sorted rows: it is refused exactly at a record that is not derivable. */
  method SlotPass(rules: Rules, recs: seq<Record>, index: seq<Row>, sorted: seq<Row>) returns (ok: bool, f: Scratch)
    requires UniqueHashes(StoreOf(recs), |recs|)
    requires HashAscending(index) && ExactRows(StoreOf(recs), |recs|, index)
    requires ExactRows(StoreOf(recs), |recs|, sorted) && Sorted(sorted) && Distinct(sorted)
    ensures ok <==> forall id :: 1 <= id <= |recs| ==> Derivable(StoreOf(recs), |recs|, id)
    ensures ok ==> Built(Unguarded(rules), StoreOf(recs), |recs|, f.slots)
  {
    hide UniqueHashes, HashAscending, Sorted, Distinct, Filled, Built, BuiltAt, Derive, Accepted, Covered, Unguarded;
    ghost var s, n, lm := StoreOf(recs), |recs|, Unguarded(rules);
    f := Scratch(map[], 0);
    FilledStart(lm, s, n, sorted);
    var i := 0;
    while i < |sorted|
      invariant 0 <= i <= |sorted|
      invariant forall j :: 0 <= j < i ==> Derivable(s, n, sorted[j].recordId)
      invariant Filled(lm, s, n, sorted, i, f)
    {
      var id := sorted[i].recordId;
      assert recs[id - 1] == Rec(s, id);
      AcceptedParent(s, n, id);
      if !IsRoot(s, id) && ParentId(s, n, id) != 0 { ParentSlot(lm, s, n, sorted, i, f); }
      var de;
      ok, de := SlotEntry(rules, recs[id - 1], index, f, s, n, id);
      if !ok {
        assert !Derivable(s, n, id);
        return;
      }
      FilledNew(lm, s, n, sorted, i, f, de);
      FilledStep(lm, s, n, sorted, i, f, de);
      f := WriteSlot(f, id, de);
      i := i + 1;
    }
    ok := true;
    FilledEnd(lm, s, n, sorted, f);
    forall id | 1 <= id <= n ensures Derivable(s, n, id) {
      assert RowOf(s, id) in sorted;
      var j :| 0 <= j < |sorted| && sorted[j] == RowOf(s, id);
    }
  }

  lemma AcceptedParent(s: Store, n: nat, id: Id)
    ensures Accepted(s, n, id) ==> IsRoot(s, id) || ParentId(s, n, id) != 0
  {
  }

  lemma FilledStart(rules: Rules, s: Store, n: nat, sorted: seq<Row>)
    ensures Filled(rules, s, n, sorted, 0, Scratch(map[], 0))
  {
  }

  /** Where parents come first, nothing but acceptance counts. */
  lemma OrderedDerivable(s: Store, n: nat, id: Id)
    requires Ordered(s, n) && 1 <= id <= n
    ensures Derivable(s, n, id) <==> Acceptable(Rec(s, id))
  {
    if !IsRoot(s, id) {
      OrderedParent(s, n, id);
      ParentInRange(s, n, id);
      assert Covered(s, n, id, ParentId(s, n, id));
    }
  }

  /** The scan meets the records in hash order, so a repeated hash is met twice in a row. */
  method ScanDuplicates(recs: seq<Record>) returns (ok: bool)
    requires forall i, j :: 0 <= i < j < |recs| ==> recs[i].hash <= recs[j].hash
    ensures ok <==> UniqueHashes(StoreOf(recs), |recs|)
    ensures ok <==> forall i, j :: 0 <= i < j < |recs| ==> recs[i].hash < recs[j].hash
  {
    ghost var s := StoreOf(recs);
    var i := 1;
    while i < |recs|
      invariant 1 <= i
      invariant forall a, b :: 0 <= a < b < i && b < |recs| ==> recs[a].hash < recs[b].hash
    {
      if recs[i - 1].hash == recs[i].hash {
        assert Rec(s, i).hash == Rec(s, i + 1).hash;
        return false;
      }
      i := i + 1;
    }
    ok := true;
    forall a, b | 1 <= a < b <= |recs| ensures Rec(s, a).hash != Rec(s, b).hash {
      assert recs[a - 1].hash < recs[b - 1].hash;
    }
  }

  /** The whole low-memory derivation: external sort, then the slot pass. */
  method BuildDerivedLowMemory(rules: Rules, recs: seq<Record>, kChunk: nat) returns (ok: bool, f: Scratch)
    requires kChunk > 0
    requires forall i, j :: 0 <= i < j < |recs| ==> recs[i].hash <= recs[j].hash
    ensures ok <==> UniqueHashes(StoreOf(recs), |recs|)
                    && forall id :: 1 <= id <= |recs| ==> Derivable(StoreOf(recs), |recs|, id)
    ensures ok ==> Built(Unguarded(rules), StoreOf(recs), |recs|, f.slots)
  {
    hide Built, Derivable, UniqueHashes, Sorted;
    ghost var s, n := StoreOf(recs), |recs|;
    f := Scratch(map[], 0);
    ok := ScanDuplicates(recs);
    if !ok {
      return;
    }
    var index := CollectRows(recs);
    var sorted := ExternalHeightSort(index, kChunk);
    SameRows(s, n, index, sorted);
    SortedDistinct(index, sorted);
    ok, f := SlotPass(rules, recs, index, sorted);
  }

  // ---------------------------------------------------------------- stores on which it stops or reads zeroes

  /** The store of LateParentLosesTrust is refused here: the parent's slot lies beyond the end of the file. */
  lemma LateParentRefused() returns (recs: seq<Record>, best: Hash)
    ensures recs == Three(7, 1) && Buildable(StoreOf(recs), 3, Some(best))
    ensures (forall id :: 1 <= id <= 3 ==> Accepted(StoreOf(recs), 3, id)) && !Derivable(StoreOf(recs), 3, 3)
  {
    hide Buildable, Built;
    var rules;
    rules, recs, best := LateParentLosesTrust();
    ThreeRecords(7, 1);
    assert forall y: Id :: 2 <= y <= 3 ==> !Less(RowOf(StoreOf(recs), y), RowOf(StoreOf(recs), 3));
  }

  /** One more record, of the highest id, between root and child. */
  function Four(): seq<Record> {
    Three(7, 2) + [Plain(13, 10, 1)]
  }

  lemma FourRecords()
    ensures var s := StoreOf(Four());
            && Rec(s, 1) == Plain(10, 0, 0) && Rec(s, 2) == Plain(11, 10, 7)
            && Rec(s, 3) == Plain(12, 11, 2) && Rec(s, 4) == Plain(13, 10, 1)
            && UniqueHashes(s, 4) && ParentId(s, 4, 2) == 1 && ParentId(s, 4, 3) == 2 && ParentId(s, 4, 4) == 1
  {
    var recs := Four();
    var s := StoreOf(recs);
    assert recs[0] == Plain(10, 0, 0) && recs[1] == Plain(11, 10, 7);
    assert recs[2] == Plain(12, 11, 2) && recs[3] == Plain(13, 10, 1);
    assert s[1] == recs[0] && s[2] == recs[1] && s[3] == recs[2] && s[4] == recs[3];
    IdOfUnique(s, 4, 10, 1);
    IdOfUnique(s, 4, 11, 2);
  }

  lemma FourDerivable(id: Id)
    requires 1 <= id <= 4
    ensures Derivable(StoreOf(Four()), 4, id)
  {
    hide StoreOf, Four;
    FourRecords();
    var s := StoreOf(Four());
    assert Less(RowOf(s, 1), RowOf(s, 2)) && Less(RowOf(s, 4), RowOf(s, 3)) && Less(RowOf(s, 1), RowOf(s, 4));
    assert Covered(s, 4, 2, 1) && Covered(s, 4, 3, 2) && Covered(s, 4, 4, 1);
  }

  lemma FourTrusts(rules: Rules)
    requires rules == Unguarded(Unit())
    ensures var s := StoreOf(Four()); Grounded(s, 4, 3, 2) && Value(rules, s, 4, 3, 2).trust == 3
  {
    hide StoreOf, Four;
    FourRecords();
    var s := StoreOf(Four());
    assert Grounded(s, 4, 1, 0) && Value(rules, s, 4, 1, 0).trust == 1;
    assert Grounded(s, 4, 2, 1) && Value(rules, s, 4, 2, 1).trust == 2;
  }

  /** A store the pass accepts although a parent comes late: its slot, covered by then, reads as zeroes. */
  lemma ZeroSlotRead() returns (rules: Rules, recs: seq<Record>)
    ensures recs == Four() && UniqueHashes(StoreOf(recs), 4) && Grounded(StoreOf(recs), 4, 3, 2)
    ensures forall id :: 1 <= id <= 4 ==> Derivable(StoreOf(recs), 4, id)
    ensures Value(rules, StoreOf(recs), 4, 3, 2).trust == 3
    ensures forall e: map<Id, Derived> :: Built(rules, StoreOf(recs), 4, e) ==> e[3].trust == 1
  {
    hide StoreOf, Four, Derivable;
    rules, recs := Unguarded(Unit()), Four();
    var s := StoreOf(recs);
    FourRecords();
    FourTrusts(rules);
    forall id | 1 <= id <= 4 ensures Derivable(s, 4, id) { FourDerivable(id); }
    forall e: map<Id, Derived> | Built(rules, s, 4, e) ensures e[3].trust == 1 {
      assert BuiltAt(rules, s, 4, e, 3) && !ParentFirst(s, 4, 3);
    }
  }

  // ---------------------------------------------------------------- agreement

  /** The checksum of a parentless record is the same with and without the guard. */
  predicate Harmless(rules: Rules, r: Record) {
    r.hash == rules.genesis || Digest32(rules, Preimage(None, r.nFlags, Proof(r), r.nStakeModifier)) == 0
  }

  ghost predicate HarmlessRoots(rules: Rules, s: Store, n: nat) {
    forall id :: 1 <= id <= n && IsRoot(s, id) ==> Harmless(rules, Rec(s, id))
  }

  /** Guarded and unguarded rules give every record that reaches a root the same entry. */
  ghost predicate GuardIrrelevant(rules: Rules, s: Store, n: nat) {
    forall id, k: nat :: Grounded(s, n, id, k) ==> Value(rules, s, n, id, k) == Value(Unguarded(rules), s, n, id, k)
  }

  lemma {:induction false} HarmlessValue(rules: Rules, s: Store, n: nat, id: Id, k: nat)
    requires HarmlessRoots(rules, s, n) && Grounded(s, n, id, k)
    ensures Value(rules, s, n, id, k) == Value(Unguarded(rules), s, n, id, k)
    decreases k
  {
    if !IsRoot(s, id) {
      HarmlessValue(rules, s, n, ParentId(s, n, id), k - 1);
    }
  }

  /** Over a whole store the missing guard makes no difference exactly if every root is harmless. */
  lemma RootGuardExact(rules: Rules, s: Store, n: nat)
    requires rules.guardsRoots
    ensures GuardIrrelevant(rules, s, n) <==> HarmlessRoots(rules, s, n)
  {
    if HarmlessRoots(rules, s, n) {
      forall id, k: nat | Grounded(s, n, id, k)
        ensures Value(rules, s, n, id, k) == Value(Unguarded(rules), s, n, id, k)
      {
        HarmlessValue(rules, s, n, id, k);
      }
    }
    if GuardIrrelevant(rules, s, n) {
      forall id | 1 <= id <= n && IsRoot(s, id) ensures Harmless(rules, Rec(s, id)) {
        assert Grounded(s, n, id, 0);
        assert Value(rules, s, n, id, 0) == Value(Unguarded(rules), s, n, id, 0);
      }
    }
  }

  /** A store of one foreign root on which they differ. */
  lemma ForeignRootDiffers() returns (rules: Rules, s: Store)
    ensures rules.guardsRoots && Grounded(s, 1, 1, 0)
    ensures Value(rules, s, 1, 1, 0).checksum != Value(Unguarded(rules), s, 1, 1, 0).checksum
  {
    rules := Rules((_, _, _, _, _) => 1, _ => UINT224, _ => 0, 10, true);
    s := map[1 := NULL_RECORD.(hash := 11)];
    assert UINT224 % UINT256 / UINT224 == 1;
  }

  /** No record has the height of its parent, so that comparing hashes never decides which comes first. */
  ghost predicate HeightsDiffer(s: Store, n: nat) {
    forall id :: 1 <= id <= n && !IsRoot(s, id) && ParentId(s, n, id) != 0 ==>
      Rec(s, ParentId(s, n, id)).height != Rec(s, id).height
  }

  /** Then a parent sorts first exactly if it is lower, in whatever order hashes are compared. */
  lemma HeightsDecide(s: Store, n: nat, id: Id)
    requires HeightsDiffer(s, n) && 1 <= id <= n
    ensures ParentFirst(s, n, id) <==>
              && !IsRoot(s, id) && ParentId(s, n, id) != 0
              && Rec(s, ParentId(s, n, id)).height < Rec(s, id).height
  {
  }

  lemma {:induction false} HarmlessBuilt(rules: Rules, s: Store, n: nat, a: map<Id, Derived>, b: map<Id, Derived>,
                                         id: Id)
    requires Built(rules, s, n, a) && Built(Unguarded(rules), s, n, b) && HarmlessRoots(rules, s, n) && 1 <= id <= n
    ensures a[id] == b[id]
    decreases |Earlier(s, n, id)|
  {
    assert BuiltAt(rules, s, n, a, id) && BuiltAt(Unguarded(rules), s, n, b, id);
    if ParentFirst(s, n, id) {
      EarlierShrinks(s, n, id);
      HarmlessBuilt(rules, s, n, a, b, ParentId(s, n, id));
    }
  }

  /** The two builders give the same entries exactly if every root is harmless, wherever parents sort. */
  lemma BuildersAgreeIff(rules: Rules, s: Store, n: nat, built: map<Id, Derived>, slots: map<Id, Derived>)
    requires rules.guardsRoots && HeightsDiffer(s, n)
    requires Built(rules, s, n, built) && Built(Unguarded(rules), s, n, slots)
    ensures built == slots <==> HarmlessRoots(rules, s, n)
  {
    if HarmlessRoots(rules, s, n) {
      forall id | id in built ensures id in slots && built[id] == slots[id] {
        HarmlessBuilt(rules, s, n, built, slots, id);
      }
    }
    if built == slots {
      forall id | 1 <= id <= n && IsRoot(s, id) ensures Harmless(rules, Rec(s, id)) {
        assert BuiltAt(rules, s, n, built, id) && BuiltAt(Unguarded(rules), s, n, slots, id);
      }
    }
  }

  /** On a sound store a builder gives the solution of the replay exactly if no late parent's entry would have shown. */
  lemma BuiltIsReplayIff(rules: Rules, s: Store, n: nat, replayed: map<Id, Derived>, built: map<Id, Derived>)
    requires forall id :: 1 <= id <= n ==> Reaches(s, n, id)
    requires IsSolution(rules, s, n, replayed) && Built(rules, s, n, built)
    ensures replayed == built <==> LateParentsTraceless(rules, s, n)
  {
    BuiltRightIff(rules, s, n, built);
    if AllRight(rules, s, n, built) {
      forall id | id in replayed ensures id in built && replayed[id] == built[id] {
        assert Reaches(s, n, id);
        var k: nat :| Grounded(s, n, id, k);
        ConsistentIsSolved(rules, s, n, replayed, id, k);
      }
      assert replayed == built;
    }
    if replayed == built {
      forall id, k: nat | Grounded(s, n, id, k) ensures id in built && built[id] == Value(rules, s, n, id, k) {
        ConsistentIsSolved(rules, s, n, replayed, id, k);
      }
    }
  }

  /** Three ways, one answer: on an ordered store with harmless roots all of them give the same entries. */
  lemma BuildersAgreeWithReplay(rules: Rules, s: Store, n: nat, replayed: map<Id, Derived>, built: map<Id, Derived>,
                                slots: map<Id, Derived>)
    requires rules.guardsRoots && UniqueHashes(s, n) && Connected(s, n) && HeightsIncrease(s, n)
    requires HarmlessRoots(rules, s, n) && IsSolution(rules, s, n, replayed)
    requires Built(rules, s, n, built) && Built(Unguarded(rules), s, n, slots)
    ensures replayed == built == slots
  {
    hide Built, IsSolution, HarmlessRoots;
    IncreasingIsOrdered(s, n);
    forall id | 1 <= id <= n ensures Reaches(s, n, id) {
      OrderedGrounded(s, n, id, |Earlier(s, n, id)|);
    }
    forall id: Id, k: nat ensures !LateParent(s, n, id, k) {
      if 1 <= id <= n && !IsRoot(s, id) { OrderedParent(s, n, id); }
    }
    BuildersAgreeIff(rules, s, n, built, slots);
    BuiltIsReplayIff(rules, s, n, replayed, built);
  }
}
