/** Reading a written address manager back: loops over records and positions that rebuild every table. */
module AddrManLoad {
  import opened AddrManModel
  import opened AddrMan
  import opened AddrManDisk

  /** A default-constructed entry, which reading an absent id creates. */
  const UNSET := Info(Service(0, 0), {0}, 100000000, 0, 0, 0, 0, 0, false, -1)

  /** Counts the source's loops can run up to; it is undefined there to come to a bucket the table does not have. */
  predicate Countable(d: Disk) {
    && 0 <= d.nNew && 0 <= d.nTried
    && (d.nUBuckets <= NEW_BUCKET_COUNT || |d.records| < d.nNew + d.nTried || |d.buckets| < NEW_BUCKET_COUNT)
  }

  /** The stream has as many records and buckets as it announces. */
  predicate Complete(d: Disk) {
    Countable(d) && d.nNew + d.nTried <= |d.records| && d.nUBuckets <= |d.buckets|
  }

  function Cleared(d: Disk): Man {
    Man(d.key, 0, map[], map[], [], d.nTried, d.nNew, seq(TRIED_BUCKET_COUNT, _ => []), seq(NEW_BUCKET_COUNT, _ => {}))
  }

  function PutNew(vvNew: seq<set<Id>>, b: nat, id: Id): seq<set<Id>> {
    if b < |vvNew| then vvNew[b := vvNew[b] + {id}] else vvNew
  }

  /** One new record; without usable positions it goes to the bucket its key selects. */
  function AddNewRecord(h: Hashing, m: Man, n: nat, r: Saved, rebuild: bool): Man {
    var m1 := m.(mapInfo := m.mapInfo[n := Fresh(r, |m.vRandom|)], mapAddr := m.mapAddr[r.svc.ip := n],
                 vRandom := m.vRandom + [n]);
    if !rebuild then m1
    else m1.(vvNew := PutNew(m.vvNew, NewBucket(h, m.key, r.svc, r.source), n),
             mapInfo := m1.mapInfo[n := m1.mapInfo[n].(refCount := 1)])
  }

  function LoadNew(h: Hashing, d: Disk, n: nat): Man
    requires n <= |d.records|
  {
    if n == 0 then Cleared(d)
    else AddNewRecord(h, LoadNew(h, d, n - 1), n - 1, d.records[n - 1], d.nUBuckets != NEW_BUCKET_COUNT)
  }

  /** One tried record: into the bucket its key selects, or lost if that is full. */
  function AddTriedRecord(h: Hashing, m: Man, r: Saved): Man {
    var b, id := TriedBucket(h, m.key, r.svc), m.idCount;
    if b < |m.vvTried| && |m.vvTried[b]| < TRIED_BUCKET_SIZE then
      m.(mapInfo := m.mapInfo[id := Fresh(r, |m.vRandom|).(inTried := true)], mapAddr := m.mapAddr[r.svc.ip := id],
         vRandom := m.vRandom + [id], vvTried := m.vvTried[b := m.vvTried[b] + [id]], idCount := id + 1)
    else m.(nTried := m.nTried - 1)
  }

  /** After all new records and n tried ones. */
  function LoadTried(h: Hashing, d: Disk, n: nat): Man
    requires 0 <= d.nNew && d.nNew + n <= |d.records|
  {
    if n == 0 then LoadNew(h, d, d.nNew).(idCount := d.nNew)
    else AddTriedRecord(h, LoadTried(h, d, n - 1), d.records[d.nNew + n - 1])
  }

  /** One position of bucket b. */
  function AddPosition(m: Man, b: nat, i: nat, usable: bool): Man {
    var info := if i in m.mapInfo then m.mapInfo[i] else UNSET;
    if usable && info.refCount < NEW_BUCKETS_PER_ADDRESS then
      m.(mapInfo := m.mapInfo[i := info.(refCount := info.refCount + 1)], vvNew := PutNew(m.vvNew, b, i))
    else m.(mapInfo := m.mapInfo[i := info])
  }

  function LoadBucket(m: Man, b: nat, list: seq<nat>, k: nat, usable: bool): Man
    requires k <= |list|
  {
    if k == 0 then m else AddPosition(LoadBucket(m, b, list, k - 1, usable), b, list[k - 1], usable)
  }

  function LoadBuckets(m: Man, d: Disk, b: nat): Man
    requires b <= |d.buckets|
  {
    if b == 0 then m
    else LoadBucket(LoadBuckets(m, d, b - 1), b - 1, d.buckets[b - 1], |d.buckets[b - 1]|,
                    d.nUBuckets == NEW_BUCKET_COUNT)
  }

  function Load(h: Hashing, d: Disk): Man
    requires Complete(d)
  {
    LoadBuckets(LoadTried(h, d, d.nTried), d, d.nUBuckets)
  }

  /** Where an incomplete stream leaves the manager: an unset entry, the lost ones still counted, or buckets missing. */
  function LoadAsFar(h: Hashing, d: Disk): Man
    requires Countable(d) && !Complete(d)
  {
    var n := |d.records|;
    if n < d.nNew then (var m := LoadNew(h, d, n); m.(mapInfo := m.mapInfo[n := UNSET]))
    else if n < d.nNew + d.nTried then LoadTried(h, d, n - d.nNew).(nTried := d.nTried)
    else LoadBuckets(LoadTried(h, d, d.nTried), d, |d.buckets|)
  }

  // ---------------------------------------------------------------- the loops

  method Clear(m: CAddrMan, d: Disk)
    modifies m
    ensures m.State() == Cleared(d)
    ensures m.idCount == 0 && m.mapInfo == map[] && m.mapAddr == map[] && m.vRandom == []
  {
    m.key, m.nNew, m.nTried := d.key, d.nNew, d.nTried;
    m.idCount, m.mapInfo, m.mapAddr, m.vRandom := 0, map[], map[], [];
    m.vvTried := seq(TRIED_BUCKET_COUNT, _ => []);
    m.vvNew := seq(NEW_BUCKET_COUNT, _ => {});
  }

  /** One round of the loop over the new records. */
  method ReadNewRecord(m: CAddrMan, n: nat, r: Saved, rebuild: bool)
    modifies m
    ensures m.State() == AddNewRecord(m.hashing, old(m.State()), n, r, rebuild)
  {
    m.mapInfo := m.mapInfo[n := Fresh(r, |m.vRandom|)];
    m.mapAddr := m.mapAddr[r.svc.ip := n];
    m.vRandom := m.vRandom + [n];
    if rebuild {
      m.vvNew := PutNew(m.vvNew, NewBucket(m.hashing, m.key, r.svc, r.source), n);
      m.mapInfo := m.mapInfo[n := m.mapInfo[n].(refCount := m.mapInfo[n].refCount + 1)];
    }
  }

  method ReadNew(m: CAddrMan, d: Disk) returns (ok: bool)
    requires Countable(d) && m.State() == Cleared(d)
    modifies m
    ensures ok <==> d.nNew <= |d.records|
    ensures ok ==> m.State() == LoadTried(m.hashing, d, 0)
    ensures !ok ==> m.State() == LoadAsFar(m.hashing, d)
  {
    hide AddNewRecord, Cleared;
    var n := 0;
    while n < d.nNew
      invariant 0 <= n <= d.nNew && n <= |d.records|
      invariant m.State() == LoadNew(m.hashing, d, n)
    {
      if n == |d.records| {
        m.mapInfo := m.mapInfo[n := UNSET];
        return false;
      }
      ReadNewRecord(m, n, d.records[n], d.nUBuckets != NEW_BUCKET_COUNT);
      n := n + 1;
    }
    m.idCount := d.nNew;
    ok := true;
  }

  /** One round of the loop over the tried records; the count of the lost ones is kept by the loop. */
  method ReadTriedRecord(m: CAddrMan, r: Saved) returns (lost: nat)
    modifies m
    ensures m.nTried == old(m.nTried)
    ensures m.State().(nTried := old(m.nTried) - lost) == AddTriedRecord(m.hashing, old(m.State()), r)
    ensures var b := TriedBucket(m.hashing, m.key, r.svc);
            b < |old(m.vvTried)| ==>
              && lost == (if |old(m.vvTried)[b]| < 64 then 0 else 1)
              && (lost == 0 ==> m.vvTried == old(m.vvTried)[b := old(m.vvTried)[b] + [old(m.idCount)]])
              && (lost == 1 ==> m.State() == old(m.State()))
  {
    var b := TriedBucket(m.hashing, m.key, r.svc);
    if b < |m.vvTried| && |m.vvTried[b]| < TRIED_BUCKET_SIZE {
      var id, pos := m.idCount, |m.vRandom|;
      m.vRandom := m.vRandom + [id];
      m.mapInfo := m.mapInfo[id := Fresh(r, pos).(inTried := true)];
      m.mapAddr := m.mapAddr[r.svc.ip := id];
      m.vvTried := m.vvTried[b := m.vvTried[b] + [id]];
      m.idCount := id + 1;
      lost := 0;
    } else {
      lost := 1;
    }
  }

  /** The running total does not matter to a record. */
  lemma AddTriedShift(h: Hashing, m: Man, r: Saved, less: int)
    ensures AddTriedRecord(h, m.(nTried := m.nTried - less), r) ==
            (var m' := AddTriedRecord(h, m, r); m'.(nTried := m'.nTried - less))
  {
  }

  method ReadTried(m: CAddrMan, d: Disk) returns (ok: bool)
    requires Countable(d) && d.nNew <= |d.records| && m.State() == LoadTried(m.hashing, d, 0) && m.nTried == d.nTried
    modifies m
    ensures ok <==> d.nNew + d.nTried <= |d.records|
    ensures ok ==> m.State() == LoadTried(m.hashing, d, d.nTried)
    ensures !ok ==> m.State() == LoadAsFar(m.hashing, d)
  {
    hide AddTriedRecord, LoadNew;
    var n, nLost := 0, 0;
    while n < d.nTried
      invariant 0 <= n <= d.nTried && d.nNew + n <= |d.records|
      invariant m.nTried == d.nTried
      invariant m.State().(nTried := d.nTried - nLost) == LoadTried(m.hashing, d, n)
    {
      if d.nNew + n == |d.records| {
        return false;
      }
      AddTriedShift(m.hashing, m.State(), d.records[d.nNew + n], nLost);
      var lost := ReadTriedRecord(m, d.records[d.nNew + n]);
      nLost := nLost + lost;
      n := n + 1;
    }
    m.nTried := m.nTried - nLost;
    ok := true;
  }

  lemma {:induction false} LoadNewCounts(h: Hashing, d: Disk, n: nat)
    requires n <= |d.records|
    ensures LoadNew(h, d, n).nTried == d.nTried
  {
    if n > 0 { LoadNewCounts(h, d, n - 1); }
  }

  /** One position: an absent id is created, and a reference added unless the entry has enough. */
  method ReadPosition(m: CAddrMan, b: nat, i: nat, usable: bool)
    modifies m
    ensures m.State() == AddPosition(old(m.State()), b, i, usable)
    ensures i !in old(m.mapInfo) ==>
              && i in m.mapInfo
              && m.mapInfo[i] == Info(Service(0, 0), {0}, 100000000, 0, 0, 0, 0, if usable then 1 else 0, false, -1)
    ensures i in old(m.mapInfo) && (!usable || old(m.mapInfo)[i].refCount >= 4) ==> m.State() == old(m.State())
  {
    if i !in m.mapInfo {
      m.mapInfo := m.mapInfo[i := UNSET];
    }
    if usable && m.mapInfo[i].refCount < NEW_BUCKETS_PER_ADDRESS {
      m.mapInfo := m.mapInfo[i := m.mapInfo[i].(refCount := m.mapInfo[i].refCount + 1)];
      m.vvNew := PutNew(m.vvNew, b, i);
    } else {
      assert m.mapInfo == m.mapInfo[i := m.mapInfo[i]];
    }
  }

  method ReadBucket(m: CAddrMan, d: Disk, b: nat)
    requires b < |d.buckets|
    modifies m
    ensures m.State() == LoadBucket(old(m.State()), b, d.buckets[b], |d.buckets[b]|, d.nUBuckets == NEW_BUCKET_COUNT)
  {
    hide AddPosition;
    var list, n := d.buckets[b], 0;
    while n < |list|
      invariant 0 <= n <= |list|
      invariant m.State() == LoadBucket(old(m.State()), b, list, n, d.nUBuckets == NEW_BUCKET_COUNT)
    {
      ReadPosition(m, b, list[n], d.nUBuckets == NEW_BUCKET_COUNT);
      n := n + 1;
    }
  }

  /** The reading branch of the serializer: everything, or as far as the stream goes. */
  method Read(m: CAddrMan, d: Disk) returns (ok: bool)
    requires Countable(d)
    modifies m
    ensures ok <==> Complete(d)
    ensures ok ==> m.State() == Load(m.hashing, d)
    ensures !ok ==> m.State() == LoadAsFar(m.hashing, d)
  {
    hide LoadNew, LoadBucket, Cleared, AddTriedRecord;
    Clear(m, d);
    ok := ReadNew(m, d);
    if !ok {
      return;
    }
    LoadNewCounts(m.hashing, d, d.nNew);
    ok := ReadTried(m, d);
    if !ok {
      return;
    }
    ghost var loaded := m.State();
    var b := 0;
    while b < d.nUBuckets
      invariant 0 <= b <= d.nUBuckets && b <= |d.buckets|
      invariant m.State() == LoadBuckets(loaded, d, b)
    {
      if b == |d.buckets| {
        return false;
      }
      ReadBucket(m, d, b);
      b := b + 1;
    }
    ok := true;
  }
}
