/** Folding a mutable tip into an immutable base: a new generation that answers as base-then-tip did. */
module Fold {
  import opened Options
  import opened Chain
  import opened IndexStores

  /** The base generation as it can be read: unreadable slots are absent. */
  datatype Base = Base(records: Store, count: nat, tipHeight: int, active: map<int, Id>, derived: map<Id, Derived>)

  datatype TipRead = TipRead(record: Record, derived: Derived)

  /** The mutable tip: slot k is active height baseHeight + 1 + k, absent if it cannot be read. */
  datatype Tip = Tip(baseHeight: int, slots: seq<Option<TipRead>>)

  function LookupActive(tip: Tip, h: int): Option<TipRead> {
    var rel := h - tip.baseHeight - 1;
    if 0 <= rel < |tip.slots| then tip.slots[rel] else None
  }

  /** The slots are the heights right above the base, one each, and there are no others. */
  lemma SlotHeights(tip: Tip, h: int)
    ensures LookupActive(tip, h).Some? ==> tip.baseHeight < h <= tip.baseHeight + |tip.slots|
    ensures forall k :: 0 <= k < |tip.slots| ==> LookupActive(tip, tip.baseHeight + 1 + k) == tip.slots[k]
  {
  }

  /** How many consecutive heights from h to top the tip answers. */
  function Run(tip: Tip, h: int, top: int): nat
    decreases top + 1 - h
  {
    if h > top || LookupActive(tip, h).None? then 0 else 1 + Run(tip, h + 1, top)
  }

  function At(tip: Tip, h: int): TipRead {
    if LookupActive(tip, h).Some? then LookupActive(tip, h).value else TipRead(NULL_RECORD, DEFAULT_DERIVED)
  }

  lemma {:induction false} RunReads(tip: Tip, h: int, top: int, k: nat)
    requires k < Run(tip, h, top)
    ensures h + k <= top && LookupActive(tip, h + k).Some?
    decreases top + 1 - h
  {
    if k > 0 { RunReads(tip, h + 1, top, k - 1); }
  }

  lemma {:induction false} RunStops(tip: Tip, h: int, top: int)
    ensures h + Run(tip, h, top) > top || LookupActive(tip, h + Run(tip, h, top)).None?
    decreases top + 1 - h
  {
    if Run(tip, h, top) > 0 { RunStops(tip, h + 1, top); }
  }

  /** A run cannot be left before its end. */
  lemma RunIs(tip: Tip, h: int, top: int, n: nat)
    requires forall g :: h <= g < h + n ==> LookupActive(tip, g).Some?
    requires n == 0 || h + n - 1 <= top
    requires h + n > top || LookupActive(tip, h + n).None?
    ensures Run(tip, h, top) == n
  {
    RunStops(tip, h, top);
    if Run(tip, h, top) > n {
      RunReads(tip, h, top, n);
    }
  }

  // ---------------------------------------------------------------- the generation that should come out

  datatype Generation = Generation(
    records: seq<Record>, ids: map<Hash, Id>, active: seq<Id>, derived: seq<Derived>, manifest: Manifest)

  function BaseRecords(base: Base): seq<Record> {
    seq(base.count, i requires 0 <= i => Rec(base.records, i + 1))
  }

  function BaseActive(base: Base): seq<Id> {
    seq(if base.tipHeight < 0 then 0 else base.tipHeight + 1, h => if h in base.active then base.active[h] else 0)
  }

  function BaseDerived(base: Base): seq<Derived> {
    seq(base.count, i => if i + 1 in base.derived then base.derived[i + 1] else DEFAULT_DERIVED)
  }

  function Folded(base: Base, tip: Tip, top: int): nat {
    Run(tip, base.tipHeight + 1, top)
  }

  function TipRecords(base: Base, tip: Tip, n: nat): seq<Record> {
    seq(n, k => At(tip, base.tipHeight + 1 + k).record)
  }

  function TipDerived(base: Base, tip: Tip, n: nat): seq<Derived> {
    seq(n, k => At(tip, base.tipHeight + 1 + k).derived)
  }

  function TipIds(base: Base, n: nat): seq<Id> {
    seq(n, (k: nat) => (base.count + k + 1) as Id)
  }

  function AllRecords(base: Base, tip: Tip, n: nat): seq<Record> {
    BaseRecords(base) + TipRecords(base, tip, n)
  }

  /** The hash index is exactly the inverse of the record list. */
  ghost predicate Indexes(ids: map<Hash, Id>, records: seq<Record>) {
    && (forall i :: 0 <= i < |records| ==> records[i].hash in ids && ids[records[i].hash] == i + 1)
    && (forall h :: h in ids ==> 1 <= ids[h] <= |records| && records[ids[h] - 1].hash == h)
  }

  ghost predicate Appendable(records: seq<Record>) {
    && (forall i :: 0 <= i < |records| ==> ValidRecord(records[i]))
    && (forall i, j :: 0 <= i < j < |records| ==> records[i].hash != records[j].hash)
  }

  /** The base can be read as far as its manifest goes. */
  ghost predicate BaseReadable(base: Base) {
    && (forall id :: 1 <= id <= base.count ==> Readable(base.records, base.count, id) && id in base.derived)
    && (forall h :: 0 <= h <= base.tipHeight ==> h in base.active && base.active[h] != 0)
    && base.count > 0 && base.tipHeight >= 0
  }

  /** Exactly when staging succeeds, the files themselves permitting. */
  ghost predicate CanFold(base: Base, tip: Tip, top: int) {
    var n := Folded(base, tip, top);
    && BaseReadable(base) && n > 0 && Appendable(AllRecords(base, tip, n))
    && LookupActive(tip, top).Some? && At(tip, top).record.hash != 0
  }

  lemma IndexedAppend(ids: map<Hash, Id>, records: seq<Record>, r: Record)
    requires Indexes(ids, records) && Appendable(records)
    ensures Appendable(records + [r]) <==> ValidRecord(r) && r.hash !in ids
    ensures r.hash !in ids ==> Indexes(ids[r.hash := |records| + 1], records + [r])
    ensures r.hash in ids ==> ids[r.hash] <= |records|
  {
    var all := records + [r];
    assert all[|records|] == r && forall i :: 0 <= i < |records| ==> all[i] == records[i];
    if r.hash in ids {
      var i := ids[r.hash] - 1;
      assert all[i].hash == all[|records|].hash;
    }
  }

  /** One record more: the store, the index and the list of records stay together. */
  method AppendIndexed(store: RecordStore, index: HashIndex, r: Record, id: Id) returns (ok: bool)
    requires id == |store.records| + 1 && Indexes(index.ids, store.records) && Appendable(store.records)
    modifies store`records, index
    ensures ok <==> Appendable(old(store.records) + [r])
    ensures ok ==> store.records == old(store.records) + [r] && Indexes(index.ids, store.records)
  {
    hide Indexes, Appendable;
    IndexedAppend(index.ids, store.records, r);
    var outId;
    ok, outId := store.Append(r);
    if ok {
      ok := index.Put(r.hash, id);
    }
  }

  lemma AppendablePrefix(a: seq<Record>, b: seq<Record>)
    requires a <= b && !Appendable(a)
    ensures !Appendable(b)
  {
    if !(forall i :: 0 <= i < |a| ==> ValidRecord(a[i])) {
      var i :| 0 <= i < |a| && !ValidRecord(a[i]);
      assert b[i] == a[i];
    } else {
      var i, j :| 0 <= i < j < |a| && a[i].hash == a[j].hash;
      assert b[i] == a[i] && b[j] == a[j];
    }
  }

  method CopyRecords(base: Base, index: HashIndex, dst: RecordStore) returns (ok: bool)
    requires dst.records == [] && index.ids == map[]
    modifies dst`records, index
    ensures ok <==> && (forall id :: 1 <= id <= base.count ==> Readable(base.records, base.count, id))
                    && Appendable(BaseRecords(base))
    ensures ok ==> dst.records == BaseRecords(base) && Indexes(index.ids, dst.records)
  {
    var id := 1;
    while id <= base.count
      invariant 1 <= id <= base.count + 1
      invariant forall k :: 1 <= k < id ==> Readable(base.records, base.count, k)
      invariant dst.records == BaseRecords(base)[..id - 1]
      invariant Appendable(dst.records) && Indexes(index.ids, dst.records)
    {
      if !Readable(base.records, base.count, id) {
        return false;
      }
      assert BaseRecords(base)[..id] == BaseRecords(base)[..id - 1] + [Rec(base.records, id)];
      ok := AppendIndexed(dst, index, base.records[id], id);
      if !ok {
        AppendablePrefix(BaseRecords(base)[..id], BaseRecords(base));
        return;
      }
      id := id + 1;
    }
    assert BaseRecords(base)[..base.count] == BaseRecords(base);
    ok := true;
  }

  method CopyActive(base: Base, dst: ActiveIndex) returns (ok: bool)
    requires dst.Valid() && dst.entries == [] && base.tipHeight < MAX_HEIGHT
    modifies dst
    ensures dst.Valid()
    ensures ok <==> base.tipHeight >= 0
                    && forall h :: 0 <= h <= base.tipHeight ==> h in base.active && base.active[h] != 0
    ensures ok ==> dst.entries == BaseActive(base)
  {
    var ids: seq<Id>, h := [], 0;
    while h <= base.tipHeight
      invariant 0 <= h && (h == 0 || h <= base.tipHeight + 1)
      invariant |ids| == h
      invariant forall k :: 0 <= k < h ==> k in base.active && base.active[k] != 0 && ids[k] == base.active[k]
    {
      if h !in base.active || base.active[h] == 0 {
        return false;
      }
      ids := ids + [base.active[h]];
      h := h + 1;
    }
    assert base.tipHeight >= 0 ==> ids == BaseActive(base);
    ok := dst.AppendBatch(ids);
  }

  method CopyDerived(base: Base, dst: DerivedStore) returns (ok: bool)
    requires dst.entries == []
    modifies dst
    ensures ok <==> base.count > 0 && forall id :: 1 <= id <= base.count ==> id in base.derived
    ensures ok ==> dst.entries == BaseDerived(base)
  {
    var batch: seq<Derived>, id := [], 1;
    while id <= base.count
      invariant 1 <= id <= base.count + 1
      invariant forall k :: 1 <= k < id ==> k in base.derived
      invariant batch == BaseDerived(base)[..id - 1]
    {
      if id !in base.derived {
        return false;
      }
      batch := batch + [base.derived[id]];
      id := id + 1;
    }
    assert batch == BaseDerived(base);
    ok := dst.AppendBatch(batch);
  }

  lemma TipGrows(base: Base, tip: Tip, n: nat, read: TipRead)
    requires LookupActive(tip, base.tipHeight + 1 + n) == Some(read)
    ensures AllRecords(base, tip, n + 1) == AllRecords(base, tip, n) + [read.record]
    ensures TipDerived(base, tip, n + 1) == TipDerived(base, tip, n) + [read.derived]
    ensures TipIds(base, n + 1) == TipIds(base, n) + [base.count + n + 1]
  {
    assert TipRecords(base, tip, n + 1) == TipRecords(base, tip, n) + [read.record];
  }

  /** The tip's blocks above the base, as far as they go; derived entries and ids are batched for later. */
  method AppendTip(base: Base, tip: Tip, top: int, index: HashIndex, dst: RecordStore)
    returns (ok: bool, folded: nat, derived: seq<Derived>, ids: seq<Id>)
    requires dst.records == BaseRecords(base) && Indexes(index.ids, dst.records) && Appendable(dst.records)
    modifies dst`records, index
    ensures var n := Folded(base, tip, top);
            && (ok <==> Appendable(AllRecords(base, tip, n)))
            && (ok ==>
                  && folded == n && dst.records == AllRecords(base, tip, n) && Indexes(index.ids, dst.records)
                  && derived == TipDerived(base, tip, n) && ids == TipIds(base, n))
  {
    hide Indexes, Appendable;
    folded, derived, ids := 0, [], [];
    var h := base.tipHeight + 1;
    assert AllRecords(base, tip, 0) == BaseRecords(base);
    while h <= top && LookupActive(tip, h).Some?
      invariant h == base.tipHeight + 1 + folded && (folded == 0 || h - 1 <= top)
      invariant forall g :: base.tipHeight + 1 <= g < h ==> LookupActive(tip, g).Some?
      invariant dst.records == AllRecords(base, tip, folded)
      invariant Indexes(index.ids, dst.records) && Appendable(dst.records)
      invariant derived == TipDerived(base, tip, folded) && ids == TipIds(base, folded)
      decreases top + 1 - h
    {
      var read := LookupActive(tip, h).value;
      TipGrows(base, tip, folded, read);
      var newId := base.count + folded + 1;
      ok := AppendIndexed(dst, index, read.record, newId);
      if !ok {
        RunAtLeast(tip, base.tipHeight + 1, top, folded + 1);
        AllRecordsPrefix(base, tip, folded + 1, Folded(base, tip, top));
        AppendablePrefix(AllRecords(base, tip, folded + 1), AllRecords(base, tip, Folded(base, tip, top)));
        return;
      }
      derived, ids := derived + [read.derived], ids + [newId];
      folded, h := folded + 1, h + 1;
    }
    RunIs(tip, base.tipHeight + 1, top, folded);
    ok := true;
  }

  lemma {:induction false} RunAtLeast(tip: Tip, h: int, top: int, n: nat)
    requires forall g :: h <= g < h + n ==> LookupActive(tip, g).Some?
    requires n == 0 || h + n - 1 <= top
    ensures Run(tip, h, top) >= n
    decreases n
  {
    if n > 0 {
      assert LookupActive(tip, h).Some?;
      RunAtLeast(tip, h + 1, top, n - 1);
    }
  }

  lemma AllRecordsPrefix(base: Base, tip: Tip, m: nat, n: nat)
    requires m <= n
    ensures AllRecords(base, tip, m) <= AllRecords(base, tip, n)
  {
    assert TipRecords(base, tip, m) == TipRecords(base, tip, n)[..m];
  }

  // ---------------------------------------------------------------- staging

  ghost function Expected(base: Base, tip: Tip, top: int, ids: map<Hash, Id>): Generation {
    var n := Folded(base, tip, top);
    Generation(AllRecords(base, tip, n), ids, BaseActive(base) + TipIds(base, n),
               BaseDerived(base) + TipDerived(base, tip, n),
               Manifest(true, base.count + n, base.tipHeight + n, base.count + n, At(tip, top).record.hash))
  }

  /** The base part of the four stores. */
  method CopyBase(base: Base, store: RecordStore, index: HashIndex, active: ActiveIndex, derived: DerivedStore)
    returns (ok: bool)
    requires store.records == [] && index.ids == map[] && active.entries == [] && derived.entries == []
    requires active.Valid() && base.tipHeight < MAX_HEIGHT
    modifies store`records, index, active, derived
    ensures active.Valid()
    ensures ok <==> BaseReadable(base) && Appendable(BaseRecords(base))
    ensures ok ==> && store.records == BaseRecords(base) && Indexes(index.ids, store.records)
                   && active.entries == BaseActive(base) && derived.entries == BaseDerived(base)
  {
    hide Indexes, Appendable;
    ok := CopyRecords(base, index, store);
    if !ok { return; }
    ok := CopyActive(base, active);
    if !ok { return; }
    ok := CopyDerived(base, derived);
  }

  lemma BaseSizes(base: Base)
    ensures |BaseRecords(base)| == |BaseDerived(base)| == base.count
    ensures BaseReadable(base) ==> base.count > 0 && base.tipHeight >= 0
    ensures |BaseActive(base)| == if base.tipHeight < 0 then 0 else base.tipHeight + 1
  {
  }

  lemma TipSizes(base: Base, tip: Tip, n: nat)
    ensures |AllRecords(base, tip, n)| == base.count + n && |TipDerived(base, tip, n)| == n
    ensures 0 !in TipIds(base, n)
  {
  }

  /** BuildFoldStaging: succeeds exactly if CanFold, with base and tip one after the other. */
  method BuildFoldStaging(base: Base, tip: Tip, top: int) returns (ok: bool, gen: Generation)
    requires base.tipHeight < MAX_HEIGHT && top < MAX_HEIGHT
    ensures ok <==> CanFold(base, tip, top)
    ensures ok ==> Indexes(gen.ids, gen.records) && gen == Expected(base, tip, top, gen.ids)
  {
    hide Indexes, Appendable, Run, BaseReadable, AllRecords, BaseRecords, BaseActive, BaseDerived, TipDerived;
    BaseSizes(base);
    TipSizes(base, tip, Folded(base, tip, top));
    var store := new RecordStore();
    var index := new HashIndex();
    var active := new ActiveIndex();
    var derivedStore := new DerivedStore();
    gen := Generation([], map[], [], [], EMPTY_MANIFEST);
    BasePrefix(base, tip, Folded(base, tip, top));
    ok := CopyBase(base, store, index, active, derivedStore);
    if !ok { return; }
    var folded, derived, ids;
    ok, folded, derived, ids := AppendTip(base, tip, top, index, store);
    if !ok { return; }
    ok := derivedStore.AppendBatch(derived);
    if !ok { return; }
    RunBounded(tip, base.tipHeight + 1, top);
    ok := active.AppendBatch(ids);
    if !ok { return; }
    ok := active.TruncateTo(base.tipHeight + folded);
    if !ok { return; }
    if LookupActive(tip, top).None? {
      return false, gen;
    }
    var tipRec := LookupActive(tip, top).value.record;
    var man := Manifest(true, base.count + folded, base.tipHeight + folded, base.count + folded, tipRec.hash);
    ok := store.WriteManifest(man);
    if !ok { return; }
    assert active.entries[..base.tipHeight + folded + 1] == active.entries;
    gen := Generation(store.records, index.ids, active.entries, derivedStore.entries, store.manifest);
  }

  lemma BasePrefix(base: Base, tip: Tip, n: nat)
    ensures Appendable(AllRecords(base, tip, n)) ==> Appendable(BaseRecords(base))
  {
    if !Appendable(BaseRecords(base)) {
      AppendablePrefix(BaseRecords(base), AllRecords(base, tip, n));
    }
  }

  lemma {:induction false} RunBounded(tip: Tip, h: int, top: int)
    ensures Run(tip, h, top) <= if h > top then 0 else top + 1 - h
    decreases top + 1 - h
  {
    if h <= top { RunBounded(tip, h + 1, top); }
  }

  /** Fold up to publication: nothing to do at or below the base tip, otherwise staging decides. */
  method FoldUpToPublication(base: Base, tip: Tip, top: int)
    returns (ok: bool, staged: bool, gen: Generation, foldHeight: int)
    requires base.tipHeight < MAX_HEIGHT && top < MAX_HEIGHT
    ensures ok <==> top <= base.tipHeight || CanFold(base, tip, top)
    ensures staged <==> top > base.tipHeight && CanFold(base, tip, top)
    ensures ok && !staged ==> foldHeight == base.tipHeight
    ensures staged ==> && Indexes(gen.ids, gen.records) && gen == Expected(base, tip, top, gen.ids)
                       && foldHeight == gen.manifest.tipHeight
  {
    gen, foldHeight := Generation([], map[], [], [], EMPTY_MANIFEST), base.tipHeight;
    if top <= base.tipHeight {
      return true, false, gen, foldHeight;
    }
    ok, gen := BuildFoldStaging(base, tip, top);
    staged := ok;
    if ok {
      foldHeight := gen.manifest.tipHeight;
    }
  }

  // ---------------------------------------------------------------- what a staged generation answers

  /** Record and derived entry at an active height. */
  function Resolve(gen: Generation, h: int): Option<TipRead> {
    if 0 <= h < |gen.active| && 1 <= gen.active[h] <= |gen.records| && gen.active[h] <= |gen.derived| then
      Some(TipRead(gen.records[gen.active[h] - 1], gen.derived[gen.active[h] - 1]))
    else None
  }

  /** The same question put to the base first and to the tip above it. */
  function BaseThenTip(base: Base, tip: Tip, h: int): Option<TipRead> {
    if h > base.tipHeight then LookupActive(tip, h)
    else if h in base.active && 1 <= base.active[h] <= base.count && base.active[h] in base.derived then
      Some(TipRead(Rec(base.records, base.active[h]), base.derived[base.active[h]]))
    else None
  }

  /** A base entry that names no record of the base, but one the fold is about to append. */
  predicate Stray(base: Base, tip: Tip, top: int, h: int) {
    h <= base.tipHeight && h in base.active && base.count < base.active[h] <= base.count + Folded(base, tip, top)
  }

  /** The base part of the new generation, entry by entry. */
  lemma BaseAt(base: Base, tip: Tip, top: int, gen: Generation, i: nat)
    requires i < base.count && BaseReadable(base) && gen == Expected(base, tip, top, gen.ids)
    ensures i + 1 in base.records && i + 1 in base.derived
    ensures |gen.records| == |gen.derived| >= base.count
    ensures gen.records[i] == base.records[i + 1] && gen.derived[i] == base.derived[i + 1]
  {
    var id := i + 1;
    assert Readable(base.records, base.count, id) && id in base.derived;
    assert gen.records[i] == BaseRecords(base)[i] == Rec(base.records, id);
    assert gen.derived[i] == BaseDerived(base)[i] == base.derived[id];
  }

  /** The tip part of the new generation, entry by entry. */
  lemma TipAt(base: Base, tip: Tip, top: int, gen: Generation, k: nat)
    requires k < Folded(base, tip, top) && BaseReadable(base) && gen == Expected(base, tip, top, gen.ids)
    ensures var h := base.tipHeight + 1 + k;
            && h < |gen.active| && gen.active[h] == base.count + k + 1
            && base.count + k < |gen.records| && base.count + k < |gen.derived|
            && LookupActive(tip, h) == Some(TipRead(gen.records[base.count + k], gen.derived[base.count + k]))
  {
    var n, h := Folded(base, tip, top), base.tipHeight + 1 + k;
    RunReads(tip, base.tipHeight + 1, top, k);
    assert gen.active[h] == TipIds(base, n)[k];
    assert gen.records[base.count + k] == TipRecords(base, tip, n)[k] == At(tip, h).record;
    assert gen.derived[base.count + k] == TipDerived(base, tip, n)[k] == At(tip, h).derived;
  }

  /** An active height up to the fold answers as before, exactly if its entry does not name an appended record. */
  lemma SameAtEveryHeight(base: Base, tip: Tip, top: int, gen: Generation, h: int)
    requires CanFold(base, tip, top) && gen == Expected(base, tip, top, gen.ids)
    requires 0 <= h <= gen.manifest.tipHeight
    ensures Resolve(gen, h) == BaseThenTip(base, tip, h) <==> !Stray(base, tip, top, h)
    ensures Resolve(gen, h).Some? <==> h <= base.tipHeight ==> base.active[h] <= base.count + Folded(base, tip, top)
  {
    if h <= base.tipHeight {
      assert gen.active[h] == BaseActive(base)[h] == base.active[h];
      if base.active[h] <= base.count {
        BaseAt(base, tip, top, gen, base.active[h] - 1);
      }
    } else {
      TipAt(base, tip, top, gen, h - base.tipHeight - 1);
    }
  }

  /** A base whose only active entry names record 2 of 1: unanswered before the fold, answered after it. */
  lemma StrayAnswered() returns (base: Base, tip: Tip, gen: Generation)
    ensures CanFold(base, tip, 1) && gen == Expected(base, tip, 1, gen.ids) && Indexes(gen.ids, gen.records)
    ensures BaseThenTip(base, tip, 0).None? && Resolve(gen, 0).Some?
  {
    var first, next := Plain(10, 0, 0), Plain(11, 10, 1);
    base := Base(map[1 := first], 1, 0, map[0 := 2], map[1 := DEFAULT_DERIVED]);
    tip := Tip(0, [Some(TipRead(next, DEFAULT_DERIVED))]);
    OneAndOne(base, tip, first, next);
    gen := Expected(base, tip, 1, map[10 := 1, 11 := 2]);
    SameAtEveryHeight(base, tip, 1, gen, 0);
  }

  lemma OneAndOne(base: Base, tip: Tip, first: Record, next: Record)
    requires base.count == 1 && base.records == map[1 := first] && base.tipHeight == 0
    requires tip.baseHeight == 0 && |tip.slots| == 1 && tip.slots[0].Some? && tip.slots[0].value.record == next
    ensures Folded(base, tip, 1) == 1 && AllRecords(base, tip, 1) == [first, next]
    ensures LookupActive(tip, 1) == tip.slots[0]
  {
    assert LookupActive(tip, 1) == tip.slots[0];
    assert Run(tip, 2, 1) == 0;
    assert BaseRecords(base)[0] == Rec(base.records, 0 + 1) && TipRecords(base, tip, 1)[0] == At(tip, 0 + 1 + 0).record;
  }

  /** Every RecordId of the base keeps its hash, its record and its derived entry. */
  lemma SameAtEveryId(base: Base, tip: Tip, top: int, gen: Generation, id: Id)
    requires CanFold(base, tip, top) && Indexes(gen.ids, gen.records) && gen == Expected(base, tip, top, gen.ids)
    requires 1 <= id <= base.count
    ensures id in base.records && id in base.derived && id <= |gen.records| && id <= |gen.derived|
    ensures gen.records[id - 1] == base.records[id] && gen.derived[id - 1] == base.derived[id]
    ensures base.records[id].hash in gen.ids && gen.ids[base.records[id].hash] == id
  {
    hide Expected, BaseReadable;
    BaseAt(base, tip, top, gen, id - 1);
  }

  /** Every height from the base to the requested one is there. */
  ghost predicate Dense(base: Base, tip: Tip, top: int) {
    forall h :: base.tipHeight < h <= top ==> LookupActive(tip, h).Some?
  }

  /** A staged fold reaches the requested height exactly if the tip has no gap below it. */
  lemma ReachesTopIffDense(base: Base, tip: Tip, top: int, gen: Generation)
    requires CanFold(base, tip, top) && gen == Expected(base, tip, top, gen.ids)
    ensures |gen.records| == |gen.derived| == gen.manifest.recordCount && |gen.active| == gen.manifest.tipHeight + 1
    ensures gen.active[gen.manifest.tipHeight] == gen.manifest.tipId
    ensures gen.manifest.tipHeight == top <==> Dense(base, tip, top)
    ensures Dense(base, tip, top) ==> gen.manifest.tipHash == gen.records[gen.manifest.tipId - 1].hash
  {
    var n, h0 := Folded(base, tip, top), base.tipHeight + 1;
    RunBounded(tip, h0, top);
    RunReads(tip, h0, top, n - 1);
    if Dense(base, tip, top) { RunAtLeast(tip, h0, top, top + 1 - h0); }
    forall h | h0 <= h < h0 + n ensures LookupActive(tip, h).Some? {
      RunReads(tip, h0, top, h - h0);
    }
    assert TipIds(base, n)[n - 1] == base.count + n;
    assert gen.records[base.count + n - 1] == TipRecords(base, tip, n)[n - 1];
  }

  /** No block is active at two heights of the tip. */
  ghost predicate DistinctHeights(tip: Tip) {
    forall g, h :: LookupActive(tip, g).Some? && LookupActive(tip, h).Some? && g != h ==>
      LookupActive(tip, g).value.record.hash != LookupActive(tip, h).value.record.hash
  }

  /** The manifest names the hash of its own tip exactly if the tip has no gap. */
  lemma TipHashAgreesIffDense(base: Base, tip: Tip, top: int, gen: Generation)
    requires CanFold(base, tip, top) && gen == Expected(base, tip, top, gen.ids) && DistinctHeights(tip)
    ensures 1 <= gen.manifest.tipId <= |gen.records|
    ensures gen.manifest.tipHash == gen.records[gen.manifest.tipId - 1].hash <==> Dense(base, tip, top)
  {
    ReachesTopIffDense(base, tip, top, gen);
    TipAt(base, tip, top, gen, Folded(base, tip, top) - 1);
    assert LookupActive(tip, top).Some?;
  }

  /** Over a tip that starts right above the base and can be read throughout, a fold is never short. */
  lemma DenseTipNeverShort(base: Base, tip: Tip, top: int)
    requires tip.baseHeight == base.tipHeight && forall k :: 0 <= k < |tip.slots| ==> tip.slots[k].Some?
    requires CanFold(base, tip, top)
    ensures Dense(base, tip, top)
  {
    forall h | base.tipHeight < h <= top ensures LookupActive(tip, h).Some? {
      assert tip.slots[h - tip.baseHeight - 1].Some?;
    }
  }

  /** With a gap below the requested height a fold can succeed, short, under a tip hash that is not its tip's. */
  lemma GapFoldsShort() returns (base: Base, tip: Tip, ids: map<Hash, Id>)
    ensures CanFold(base, tip, 3) && Indexes(ids, Expected(base, tip, 3, ids).records)
    ensures var gen := Expected(base, tip, 3, ids);
            gen.manifest.tipHeight == 1 && gen.manifest.tipHash != gen.records[gen.manifest.tipId - 1].hash
  {
    var r0, r1, r3 := Plain(10, 0, 0), Plain(11, 10, 1), Plain(13, 12, 3);
    base := Base(map[1 := r0], 1, 0, map[0 := 1], map[1 := DEFAULT_DERIVED]);
    tip := Tip(0, [Some(TipRead(r1, DEFAULT_DERIVED)), None, Some(TipRead(r3, DEFAULT_DERIVED))]);
    ids := map[10 := 1, 11 := 2];
    GapRun(tip, TipRead(r1, DEFAULT_DERIVED));
    assert BaseRecords(base)[0] == Rec(base.records, 0 + 1) && TipRecords(base, tip, 1)[0] == At(tip, 0 + 1 + 0).record;
    assert AllRecords(base, tip, 1) == [r0, r1];
    assert BaseReadable(base);
    assert Appendable([r0, r1]);
  }

  lemma GapRun(tip: Tip, first: TipRead)
    requires tip.baseHeight == 0 && |tip.slots| == 3 && tip.slots[0] == Some(first) && tip.slots[1] == None
    ensures Run(tip, 1, 3) == 1 && At(tip, 1) == first
  {
    assert LookupActive(tip, 1) == Some(first) && LookupActive(tip, 2) == None;
    assert Run(tip, 2, 3) == 0;
  }

  function Plain(hash: Hash, prev: Hash, height: nat): Record {
    Record(hash, prev, height, 0, 0, 0, 0, 0, 0, 0, 0, 0)
  }
}
