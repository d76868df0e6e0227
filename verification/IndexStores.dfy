/** The stores of one generation: records by id, ids by hash, ids by active height, derived entries by id. */
module IndexStores {
  import opened Chain

  const MAX_HEIGHT := 0x7fff_ffff

  datatype Manifest = Manifest(complete: bool, recordCount: nat, tipHeight: int, tipId: Id, tipHash: Hash)

  const EMPTY_MANIFEST := Manifest(false, 0, -1, 0, 0)

  /** What a manifest must satisfy over a store of that many records. */
  predicate ValidManifest(m: Manifest, physicalCount: nat) {
    && m.recordCount <= physicalCount
    && (if m.recordCount == 0 then m.tipId == 0 && m.tipHeight == -1 && m.tipHash == 0
        else m.tipId != 0 && m.tipId <= m.recordCount && m.tipHeight >= 0 && m.tipHash != 0)
  }

  class RecordStore {
    var records: seq<Record>
    var manifest: Manifest

    constructor ()
      ensures records == [] && manifest == EMPTY_MANIFEST == Manifest(false, 0, -1, 0, 0)
    {
      records, manifest := [], EMPTY_MANIFEST;
    }

    /** The id of an appended record is its position, from 1 on. */
    method Append(r: Record) returns (ok: bool, id: Id)
      modifies this`records
      ensures ok <==> ValidRecord(r)
      ensures ok <==> && r.hash != 0 && r.height >= 0 && (r.height == 0 ==> r.hashPrev == 0)
                      && (r.nFlags % 2 == 1 <==> r.nStakeTime != 0)
                      && (r.nFlags % 2 == 0 ==> r.prevoutStakeHash == 0)
      ensures records == if ok then old(records) + [r] else old(records)
      ensures ok ==> id == |records| && records[id - 1] == r
    {
      if !ValidRecord(r) {
        return false, 0;
      }
      records := records + [r];
      return true, |records|;
    }

    method WriteManifest(m: Manifest) returns (ok: bool)
      modifies this`manifest
      ensures ok <==> ValidManifest(m, |records|)
      ensures ok <==> || (m.recordCount == 0 && m.tipId == 0 && m.tipHeight == -1 && m.tipHash == 0)
                      || (1 <= m.tipId <= m.recordCount <= |records| && m.tipHeight >= 0 && m.tipHash != 0)
      ensures manifest == if ok then m else old(manifest)
    {
      if !ValidManifest(m, |records|) {
        return false;
      }
      manifest := m;
      return true;
    }
  }

  class HashIndex {
    var ids: map<Hash, Id>

    constructor ()
      ensures ids == map[]
    {
      ids := map[];
    }

    /** A hash keeps the id it first got; another one is refused. */
    method Put(h: Hash, id: Id) returns (ok: bool)
      modifies this
      ensures ok <==> id != 0 && (h in old(ids) ==> old(ids)[h] == id)
      ensures ids == if ok then old(ids)[h := id] else old(ids)
    {
      if id == 0 {
        return false;
      }
      if h in ids {
        assert ids[h] == id ==> ids == ids[h := id];
        return ids[h] == id;
      }
      ids := ids[h := id];
      return true;
    }
  }

  /** The active chain: a dense sequence, entry h being the id at height h. */
  class ActiveIndex {
    var entries: seq<Id>

    function PhysicalHeight(): int
      reads this
    {
      |entries| - 1
    }

    ghost predicate Valid()
      reads this
    {
      PhysicalHeight() <= MAX_HEIGHT && forall h :: 0 <= h < |entries| ==> entries[h] != 0
    }

    constructor ()
      ensures Valid() && entries == []
    {
      entries := [];
    }

    method Append(id: Id, height: int) returns (ok: bool)
      requires Valid()
      modifies this
      ensures Valid()
      ensures ok <==> id != 0 && height == old(|entries|) < 0x7fff_ffff
      ensures entries == if ok then old(entries) + [id] else old(entries)
      ensures ok ==> entries[height] == id
    {
      if id == 0 || PhysicalHeight() == MAX_HEIGHT - 1 || height != PhysicalHeight() + 1 || height > MAX_HEIGHT {
        return false;
      }
      entries := entries + [id];
      return true;
    }

    method AppendBatch(ids: seq<Id>) returns (ok: bool)
      requires Valid()
      modifies this
      ensures Valid()
      ensures ok <==> && ids != [] && 0 !in ids
                      && old(|entries|) != 0x7fff_ffff && old(|entries|) + |ids| <= 0x8000_0000
      ensures entries == if ok then old(entries) + ids else old(entries)
    {
      if ids == [] {
        return false;
      }
      var i := 0;
      while i < |ids|
        invariant 0 <= i <= |ids| && 0 !in ids[..i]
      {
        if ids[i] == 0 {
          return false;
        }
        i := i + 1;
      }
      if PhysicalHeight() == MAX_HEIGHT - 1 || |ids| > MAX_HEIGHT - PhysicalHeight() {
        return false;
      }
      entries := entries + ids;
      return true;
    }

    /** Keeps the heights up to the given one. */
    method TruncateTo(height: int) returns (ok: bool)
      requires Valid()
      modifies this
      ensures Valid()
      ensures ok <==> -1 <= height < old(|entries|)
      ensures entries == if ok then old(entries)[..height + 1] else old(entries)
    {
      if height > PhysicalHeight() || height < -1 {
        return false;
      }
      entries := entries[..height + 1];
      return true;
    }

    method ReadEntry(height: int) returns (ok: bool, id: Id)
      requires Valid()
      ensures ok <==> 0 <= height < |entries|
      ensures ok ==> id == entries[height] && id != 0
    {
      if height < 0 || height > PhysicalHeight() {
        return false, 0;
      }
      return true, entries[height];
    }
  }

  class DerivedStore {
    var entries: seq<Derived>

    constructor ()
      ensures entries == []
    {
      entries := [];
    }

    method AppendBatch(batch: seq<Derived>) returns (ok: bool)
      modifies this
      ensures ok <==> batch != []
      ensures entries == old(entries) + batch
    {
      entries := entries + batch;
      return batch != [];
    }
  }
}
