/** Reading a file written with another number of new buckets: its positions are ignored and the buckets rebuilt. */
module AddrManRebuild {
  import opened AddrManModel
  import opened AddrManDisk
  import opened AddrManLoad
  import opened AddrManRoundTrip
  import opened Iteration

  /** The records of m, with the positions of some other number of buckets. */
  ghost predicate WrittenElsewhere(m: Man, d: Disk, news: seq<Id>, trieds: seq<Id>) {
    && Lists(news, NewIds(m.mapInfo, NoGap)) && Lists(trieds, TriedIds(m.mapInfo))
    && d.key == m.key && d.nNew == |news| && d.nTried == |trieds| && d.nUBuckets < 256 && d.nUBuckets == |d.buckets|
    && Saves(m.mapInfo, news + trieds, d.records)
    && forall b, k :: 0 <= b < |d.buckets| && 0 <= k < |d.buckets[b]| ==> d.buckets[b][k] < |news|
  }

  /** The new entries among the first k whose source selects bucket b. */
  ghost function Own(h: Hashing, m: Man, ids: seq<Id>, k: nat, b: nat): set<Id> {
    set i: Id | i < k && i < |ids| && i < m.nNew && ids[i] in m.mapInfo
                && NewBucket(h, m.key, m.mapInfo[ids[i]].svc, m.mapInfo[ids[i]].source) == b
  }

  /** The same entries, the first ones with one reference and the others with none. */
  ghost predicate Counted(a: map<Id, Info>, b: map<Id, Info>, nNew: int) {
    a.Keys == b.Keys && forall i :: i in a ==> b[i] == a[i].(refCount := if i < nNew then 1 else 0)
  }

  /** s is s0 with every new entry referenced once, by the bucket of its own source. */
  ghost predicate Twin(h: Hashing, m: Man, ids: seq<Id>, k: nat, s0: Man, s: Man) {
    && s == s0.(mapInfo := s.mapInfo, vvNew := s.vvNew) && Counted(s0.mapInfo, s.mapInfo, m.nNew)
    && |s.vvNew| == 256 && (forall b :: 0 <= b < 256 ==> s.vvNew[b] == Own(h, m, ids, k, b))
  }

  lemma OwnGrows(h: Hashing, m: Man, ids: seq<Id>, k: nat, b: nat)
    requires k < |ids| && k < m.nNew && ids[k] in m.mapInfo
    ensures var own := NewBucket(h, m.key, m.mapInfo[ids[k]].svc, m.mapInfo[ids[k]].source);
            Own(h, m, ids, k + 1, b) == Own(h, m, ids, k, b) + if b == own then {k} else {}
  {
  }

  lemma TwinNew(h: Hashing, m: Man, ids: seq<Id>, k: nat, s0: Man, s: Man)
    requires k < |ids| && k < m.nNew && ids[k] in m.mapInfo && s0.key == m.key && k !in s0.mapInfo
    requires Twin(h, m, ids, k, s0, s)
    ensures var r := Save(m.mapInfo[ids[k]]);
            Twin(h, m, ids, k + 1, AddNewRecord(h, s0, k, r, false), AddNewRecord(h, s, k, r, true))
  {
    hide Own, NewBucket;
    forall b: nat | b < 256
      ensures AddNewRecord(h, s, k, Save(m.mapInfo[ids[k]]), true).vvNew[b] == Own(h, m, ids, k + 1, b)
    {
      OwnGrows(h, m, ids, k, b);
    }
  }

  lemma OwnDone(h: Hashing, m: Man, ids: seq<Id>, k: nat, b: nat)
    requires m.nNew <= k
    ensures Own(h, m, ids, k + 1, b) == Own(h, m, ids, k, b)
  {
  }

  /** A tried entry more, the same in both. */
  lemma TwinEntries(a: map<Id, Info>, b: map<Id, Info>, nNew: int, k: nat, i: Info)
    requires nNew <= k && k !in a && i.refCount == 0 && Counted(a, b, nNew)
    ensures Counted(a[k := i], b[k := i], nNew)
  {
  }

  lemma TriedFields(h: Hashing, s0: Man, s: Man, k: nat, r: Saved)
    requires s == s0.(mapInfo := s.mapInfo, vvNew := s.vvNew) && s0.idCount == k
    ensures var t0, t := AddTriedRecord(h, s0, r), AddTriedRecord(h, s, r);
            && t == t0.(mapInfo := t.mapInfo, vvNew := t.vvNew) && t.vvNew == s.vvNew
            && (|| (t0.mapInfo == s0.mapInfo && t.mapInfo == s.mapInfo)
                || var i := Fresh(r, |s0.vRandom|).(inTried := true);
                   t0.mapInfo == s0.mapInfo[k := i] && t.mapInfo == s.mapInfo[k := i])
  {
    hide TriedBucket;
  }

  lemma TwinTried(h: Hashing, m: Man, ids: seq<Id>, k: nat, s0: Man, s: Man, r: Saved)
    requires m.nNew <= k && s0.idCount == k && k !in s0.mapInfo && Twin(h, m, ids, k, s0, s)
    ensures Twin(h, m, ids, k + 1, AddTriedRecord(h, s0, r), AddTriedRecord(h, s, r))
  {
    hide Own, AddTriedRecord, Counted;
    forall b: nat | b < 256 ensures Own(h, m, ids, k + 1, b) == Own(h, m, ids, k, b) { OwnDone(h, m, ids, k, b); }
    TriedFields(h, s0, s, k, r);
    TwinEntries(s0.mapInfo, s.mapInfo, m.nNew, k, Fresh(r, |s0.vRandom|).(inTried := true));
  }

  lemma StageKey(h: Hashing, m: Man, ids: seq<Id>, k: nat, s0: Man)
    requires Ordered(h, m, ids) && Stage(h, m, ids, k, s0)
    ensures s0.key == m.key && k !in s0.mapInfo
  {
  }

  lemma TwinStart(h: Hashing, m: Man, d: Disk, ids: seq<Id>)
    ensures Twin(h, m, ids, 0, Cleared(d.(nUBuckets := 256)), Cleared(d))
  {
  }

  lemma {:induction false} TwinLoadNew(h: Hashing, m: Man, d: Disk, ids: seq<Id>, k: nat)
    requires Ordered(h, m, ids) && Saves(m.mapInfo, ids, d.records) && k <= m.nNew && d.nUBuckets != 256
    requires d.key == m.key && d.nNew == m.nNew && d.nTried == m.nTried
    ensures Twin(h, m, ids, k, LoadNew(h, d.(nUBuckets := 256), k), LoadNew(h, d, k))
  {
    hide Ordered, Stage, Twin, AddNewRecord, Cleared;
    OrderedSize(h, m, ids);
    var d0 := d.(nUBuckets := 256);
    if k == 0 {
      TwinStart(h, m, d, ids);
    } else {
      TwinLoadNew(h, m, d, ids, k - 1);
      LoadNewStage(h, m, d0, ids, k - 1);
      StageKey(h, m, ids, k - 1, LoadNew(h, d0, k - 1));
      TwinNew(h, m, ids, k - 1, LoadNew(h, d0, k - 1), LoadNew(h, d, k - 1));
    }
  }

  lemma TwinCount(h: Hashing, m: Man, ids: seq<Id>, k: nat, s0: Man, s: Man)
    requires Twin(h, m, ids, k, s0, s)
    ensures Twin(h, m, ids, k, s0.(idCount := k), s.(idCount := k))
  {
    hide Own;
  }

  lemma {:induction false} TwinLoadTried(h: Hashing, m: Man, d: Disk, ids: seq<Id>, n: nat)
    requires Ordered(h, m, ids) && Saves(m.mapInfo, ids, d.records) && n <= m.nTried && d.nUBuckets != 256
    requires d.key == m.key && d.nNew == m.nNew && d.nTried == m.nTried
    ensures m.nNew >= 0 && m.nNew + n <= |d.records|
    ensures Twin(h, m, ids, m.nNew + n, LoadTried(h, d.(nUBuckets := 256), n), LoadTried(h, d, n))
  {
    hide Ordered, Stage, Twin, AddTriedRecord, LoadNew;
    OrderedSize(h, m, ids);
    var d0 := d.(nUBuckets := 256);
    if n == 0 {
      TwinLoadNew(h, m, d, ids, m.nNew);
      TwinCount(h, m, ids, m.nNew, LoadNew(h, d0, m.nNew), LoadNew(h, d, m.nNew));
    } else {
      TwinLoadTried(h, m, d, ids, n - 1);
      LoadTriedStage(h, m, d0, ids, n - 1);
      StageKey(h, m, ids, m.nNew + n - 1, LoadTried(h, d0, n - 1));
      TwinTried(h, m, ids, m.nNew + n - 1, LoadTried(h, d0, n - 1), LoadTried(h, d, n - 1), d.records[m.nNew + n - 1]);
    }
  }

  // ---------------------------------------------------------------- the positions change nothing

  lemma {:induction false} BucketIgnored(s: Man, b: nat, list: seq<nat>, k: nat)
    requires k <= |list| && forall j :: 0 <= j < |list| ==> list[j] in s.mapInfo
    ensures LoadBucket(s, b, list, k, false) == s
  {
    if k > 0 {
      BucketIgnored(s, b, list, k - 1);
      assert s.mapInfo == s.mapInfo[list[k - 1] := s.mapInfo[list[k - 1]]];
    }
  }

  lemma {:induction false} PositionsIgnored(s: Man, d: Disk, b: nat)
    requires b <= |d.buckets| && d.nUBuckets != 256
    requires forall c, k :: 0 <= c < |d.buckets| && 0 <= k < |d.buckets[c]| ==> d.buckets[c][k] in s.mapInfo
    ensures LoadBuckets(s, d, b) == s
  {
    if b > 0 {
      PositionsIgnored(s, d, b - 1);
      BucketIgnored(s, b - 1, d.buckets[b - 1], |d.buckets[b - 1]|);
    }
  }

  // ---------------------------------------------------------------- what comes out

  /** Entry ids[i] of m is entry i of s; new ones are in the bucket of their source alone, tried ones as they were. */
  ghost predicate Rebuilt(h: Hashing, m: Man, s: Man, ids: seq<Id>) {
    && Lists(ids, m.mapInfo.Keys) && s.key == m.key && s.nNew == m.nNew && s.nTried == m.nTried && s.idCount == |ids|
    && (forall i :: i in s.mapInfo <==> 0 <= i < |ids|)
    && (forall i :: 0 <= i < |ids| ==>
          s.mapInfo[i] == m.mapInfo[ids[i]].(lastTry := 0, randomPos := i,
                                             refCount := if m.mapInfo[ids[i]].inTried then 0 else 1))
    && AddrOK(s.mapInfo, s.mapAddr) && RandomOK(s.mapInfo, s.vRandom) && TriedOK(h, s.key, s.mapInfo, s.vvTried)
    && |s.vvNew| == 256
    && (forall b, i :: 0 <= b < 256 && i in s.vvNew[b] ==> 0 <= i < |ids|)
    && (forall b, i :: 0 <= b < 256 && 0 <= i < |ids| ==>
          (i in s.vvNew[b] <==>
             !m.mapInfo[ids[i]].inTried && b == NewBucket(h, m.key, m.mapInfo[ids[i]].svc, m.mapInfo[ids[i]].source)))
  }

  lemma TwinTables(h: Hashing, m: Man, ids: seq<Id>, s0: Man, s: Man)
    requires Ordered(h, m, ids) && Stage(h, m, ids, |ids|, s0) && Twin(h, m, ids, |ids|, s0, s)
    ensures AddrOK(s.mapInfo, s.mapAddr) && TriedOK(h, s.key, s.mapInfo, s.vvTried)
    ensures s.key == m.key && s.nNew == m.nNew && s.nTried == m.nTried && s.idCount == s0.idCount
    ensures forall i :: i in s.mapInfo <==> 0 <= i < |ids|
    ensures |s.vRandom| == |ids| && forall i :: 0 <= i < |ids| ==> s.vRandom[i] == i
  {
    hide Ordered, AddrOK, TriedOK, Own;
    AddrFrame(s0.mapInfo, s.mapInfo, s0.mapAddr);
    TriedFrame(h, s0.key, s0.mapInfo, s.mapInfo, s0.vvTried);
  }

  lemma TwinEntry(h: Hashing, m: Man, ids: seq<Id>, s0: Man, s: Man, i: nat)
    requires Ordered(h, m, ids) && Stage(h, m, ids, |ids|, s0) && Twin(h, m, ids, |ids|, s0, s) && i < |ids|
    ensures ids[i] in m.mapInfo && i in s.mapInfo
    ensures s.mapInfo[i] == m.mapInfo[ids[i]].(lastTry := 0, randomPos := i,
                                               refCount := if m.mapInfo[ids[i]].inTried then 0 else 1)
  {
    hide Own, Consistent, AddrOK, TriedOK;
    assert s0.mapInfo[i] == Moved(m, ids, i);
  }

  lemma TwinBuckets(h: Hashing, m: Man, ids: seq<Id>, s0: Man, s: Man)
    requires Ordered(h, m, ids) && Twin(h, m, ids, |ids|, s0, s)
    ensures |s.vvNew| == 256 && Lists(ids, m.mapInfo.Keys) && forall i :: 0 <= i < |ids| ==> ids[i] in m.mapInfo
    ensures forall b, i :: 0 <= b < 256 && i in s.vvNew[b] ==> 0 <= i < |ids|
    ensures forall b, i :: 0 <= b < 256 && 0 <= i < |ids| ==>
              (i in s.vvNew[b] <==>
                 && !m.mapInfo[ids[i]].inTried
                 && b == NewBucket(h, m.key, m.mapInfo[ids[i]].svc, m.mapInfo[ids[i]].source))
  {
    hide Consistent, Lists, NewBucket;
  }

  lemma TwinRebuilt(h: Hashing, m: Man, ids: seq<Id>, s0: Man, s: Man)
    requires Ordered(h, m, ids) && Stage(h, m, ids, |ids|, s0) && Twin(h, m, ids, |ids|, s0, s) && s0.idCount == |ids|
    ensures Rebuilt(h, m, s, ids)
  {
    hide Stage, Ordered, Twin, Consistent, Lists, AddrOK, TriedOK, NewBucket;
    TwinTables(h, m, ids, s0, s);
    TwinBuckets(h, m, ids, s0, s);
    forall i | 0 <= i < |ids|
      ensures s.mapInfo[i] == m.mapInfo[ids[i]].(lastTry := 0, randomPos := i,
                                                 refCount := if m.mapInfo[ids[i]].inTried then 0 else 1)
    {
      TwinEntry(h, m, ids, s0, s, i);
    }
  }

  /** How many new entries the rebuilding puts into bucket b. */
  ghost function OwnedBy(h: Hashing, m: Man, b: nat): set<Id> {
    set x | x in m.mapInfo && !m.mapInfo[x].inTried && NewBucket(h, m.key, m.mapInfo[x].svc, m.mapInfo[x].source) == b
  }

  lemma RebuiltRefs(h: Hashing, m: Man, s: Man, ids: seq<Id>, i: nat)
    requires Rebuilt(h, m, s, ids) && i < |ids|
    ensures i in s.mapInfo && RefOK(s.mapInfo[i], |Holding(s.vvNew, i)|, i, NoGap)
  {
    hide AddrOK, TriedOK, RandomOK;
    assert ids[i] in Elements(ids);
    var e := m.mapInfo[ids[i]];
    var b := NewBucket(h, m.key, e.svc, e.source);
    assert Holding(s.vvNew, i) == if e.inTried then {} else {b};
  }

  lemma RebuiltBucket(h: Hashing, m: Man, s: Man, ids: seq<Id>, b: nat)
    requires Rebuilt(h, m, s, ids) && b < 256
    ensures s.vvNew[b] <= s.mapInfo.Keys && |s.vvNew[b]| == |OwnedBy(h, m, b)|
  {
    hide AddrOK, TriedOK, RandomOK, NewBucket;
    SameSize(ids, s.vvNew[b], OwnedBy(h, m, b));
  }

  lemma RebuiltCounts(h: Hashing, m: Man, s: Man, ids: seq<Id>)
    requires Rebuilt(h, m, s, ids) && CountOK(m.mapInfo, m.nTried, m.nNew, NoGap)
    ensures CountOK(s.mapInfo, s.nTried, s.nNew, NoGap)
  {
    hide AddrOK, TriedOK, RandomOK, NewBucket;
    SameSize(ids, TriedIds(s.mapInfo), TriedIds(m.mapInfo));
    SameSize(ids, NewIds(s.mapInfo, NoGap), NewIds(m.mapInfo, NoGap));
  }

  lemma RebuiltParts(h: Hashing, m: Man, s: Man, ids: seq<Id>)
    requires Rebuilt(h, m, s, ids)
    ensures s.idCount == |ids| && |s.vvNew| == 256 && forall i :: i in s.mapInfo <==> 0 <= i < |ids|
    ensures AddrOK(s.mapInfo, s.mapAddr) && RandomOK(s.mapInfo, s.vRandom) && TriedOK(h, s.key, s.mapInfo, s.vvTried)
  {
  }

  lemma RebuiltConsistentIff(h: Hashing, m: Man, s: Man, ids: seq<Id>)
    requires Rebuilt(h, m, s, ids) && CountOK(m.mapInfo, m.nTried, m.nNew, NoGap)
    ensures Consistent(h, s, NoGap) <==> forall b: nat :: b < 256 ==> |OwnedBy(h, m, b)| <= 64
  {
    hide Rebuilt, AddrOK, TriedOK, RandomOK, CountOK, OwnedBy, RefOK, Holding;
    RebuiltParts(h, m, s, ids);
    RebuiltCounts(h, m, s, ids);
    forall i | 0 <= i < |ids| ensures i in s.mapInfo && RefOK(s.mapInfo[i], |Holding(s.vvNew, i)|, i, NoGap) {
      RebuiltRefs(h, m, s, ids, i);
    }
    forall b: nat | b < 256 ensures s.vvNew[b] <= s.mapInfo.Keys && |s.vvNew[b]| == |OwnedBy(h, m, b)| {
      RebuiltBucket(h, m, s, ids, b);
    }
  }

  lemma ElsewhereOrdered(h: Hashing, m: Man, d: Disk, news: seq<Id>, trieds: seq<Id>)
    requires Consistent(h, m, NoGap) && WrittenElsewhere(m, d, news, trieds)
    ensures Ordered(h, m, news + trieds) && |news| == m.nNew && |trieds| == m.nTried && Complete(d)
  {
    hide Consistent, Lists, Saves;
    WriteFacts(h, m);
    SavesSize(m.mapInfo, news + trieds, d.records);
    ListsAppend(news, NewIds(m.mapInfo, NoGap), trieds, TriedIds(m.mapInfo));
    assert NewIds(m.mapInfo, NoGap) + TriedIds(m.mapInfo) == m.mapInfo.Keys;
  }

  /**
   A file with another number of buckets brings back every entry, the new ones each in the bucket of its source.
   The tables are consistent exactly if no bucket is the source's choice for more than 64 of them.
   */
  lemma RebuildExact(h: Hashing, m: Man, d: Disk, news: seq<Id>, trieds: seq<Id>)
    requires Consistent(h, m, NoGap) && WrittenElsewhere(m, d, news, trieds)
    ensures Complete(d) && Rebuilt(h, m, Load(h, d), news + trieds)
    ensures Consistent(h, Load(h, d), NoGap) <==> forall b: nat :: b < 256 ==> |OwnedBy(h, m, b)| <= 64
  {
    var ids := news + trieds;
    ElsewhereOrdered(h, m, d, news, trieds);
    assert CountOK(m.mapInfo, m.nTried, m.nNew, NoGap);
    hide Ordered, Consistent, Stage, Twin, Saves, Lists, CountOK, LoadTried, LoadBuckets, Rebuilt, OwnedBy;
    OrderedSize(h, m, ids);
    var s0, s := LoadTried(h, d.(nUBuckets := 256), d.nTried), LoadTried(h, d, d.nTried);
    LoadTriedStage(h, m, d.(nUBuckets := 256), ids, m.nTried);
    TwinLoadTried(h, m, d, ids, m.nTried);
    TwinRebuilt(h, m, ids, s0, s);
    TwinTables(h, m, ids, s0, s);
    PositionsIgnored(s, d, |d.buckets|);
    assert Load(h, d) == s;
    RebuiltConsistentIff(h, m, s, ids);
  }

  // ---------------------------------------------------------------- a file that does not come back

  ghost function UpTo(n: nat): (s: set<Id>)
    ensures |s| == n && forall i: Id :: i in s <==> i < n
  {
    if n == 0 then {} else UpTo(n - 1) + {n - 1}
  }

  /** A hash that selects bucket 0 for everything. */
  function Flat(): Hashing {
    Hashing(_ => 0, _ => [], _ => [])
  }

  /** n new entries, each in a bucket of its own. */
  ghost function Spread(n: nat): Man {
    Man([], n, map i | i in UpTo(n) :: Info(Service(i, 0), {}, 0, 0, 0, 0, 0, 1, false, i),
        map a | a in UpTo(n) :: a, seq(n, i => i), 0, n, seq(64, _ => []), seq(256, b => if b < n then {b} else {}))
  }

  lemma SpreadNew(n: nat)
    requires n <= 256
    ensures NewOK(Spread(n).mapInfo, Spread(n).vvNew, NoGap)
  {
    hide UpTo;
    var m := Spread(n);
    forall i | i in m.mapInfo ensures RefOK(m.mapInfo[i], |Holding(m.vvNew, i)|, i, NoGap) {
      assert m.vvNew[i] == {i};
      assert Holding(m.vvNew, i) == {i};
    }
  }

  lemma SpreadCounts(n: nat)
    ensures CountOK(Spread(n).mapInfo, 0, n, NoGap)
  {
    hide UpTo;
    assert NewIds(Spread(n).mapInfo, NoGap) == UpTo(n) && TriedIds(Spread(n).mapInfo) == {};
  }

  lemma SpreadRest(n: nat)
    ensures RandomOK(Spread(n).mapInfo, Spread(n).vRandom) && AddrOK(Spread(n).mapInfo, Spread(n).mapAddr)
    ensures TriedOK(Flat(), Spread(n).key, Spread(n).mapInfo, Spread(n).vvTried)
    ensures forall id :: id in Spread(n).mapInfo ==> id < Spread(n).idCount
    ensures Spread(n).nTried == 0 && Spread(n).nNew == n
  {
    hide UpTo;
  }

  lemma SpreadOwned(n: nat)
    ensures |OwnedBy(Flat(), Spread(n), 0)| == n
  {
    hide UpTo;
    assert OwnedBy(Flat(), Spread(n), 0) == UpTo(n);
  }

  /** Not every file comes back: a consistent manager whose sources select one bucket for up to 256 new entries. */
  lemma OverfullRebuild(n: nat)
    requires n <= 256
    ensures Consistent(Flat(), Spread(n), NoGap) && |OwnedBy(Flat(), Spread(n), 0)| == n
  {
    hide Spread, Flat, OwnedBy, NewOK, RandomOK, AddrOK, TriedOK, CountOK;
    SpreadNew(n);
    SpreadCounts(n);
    SpreadRest(n);
    SpreadOwned(n);
  }

  // ---------------------------------------------------------------- a file that is cut off

  lemma {:induction false} TriedLoaded(h: Hashing, d: Disk, n: nat)
    requires 0 <= d.nNew && d.nNew + n <= |d.records|
    ensures |TriedIds(LoadTried(h, d, n).mapInfo)| <= n
  {
    hide AddTriedRecord, LoadNew;
    if n == 0 {
      NewLoaded(h, d, d.nNew);
      assert TriedIds(LoadTried(h, d, 0).mapInfo) == {};
    } else {
      TriedLoaded(h, d, n - 1);
      TriedOneMore(h, LoadTried(h, d, n - 1), d.records[d.nNew + n - 1]);
    }
  }

  lemma TriedOneMore(h: Hashing, m: Man, r: Saved)
    ensures |TriedIds(AddTriedRecord(h, m, r).mapInfo)| <= |TriedIds(m.mapInfo)| + 1
  {
    var m' := AddTriedRecord(h, m, r);
    SubsetCard(TriedIds(m'.mapInfo), TriedIds(m.mapInfo) + {m.idCount});
  }

  lemma {:induction false} NewLoaded(h: Hashing, d: Disk, n: nat)
    requires n <= |d.records|
    ensures forall x :: x in LoadNew(h, d, n).mapInfo ==> !LoadNew(h, d, n).mapInfo[x].inTried
  {
    if n > 0 { NewLoaded(h, d, n - 1); }
  }

  /** A file cut off within its records leaves tables that are not consistent. */
  lemma CutOffInconsistent(h: Hashing, d: Disk)
    requires Countable(d) && |d.records| < d.nNew + d.nTried
    ensures !Consistent(h, LoadAsFar(h, d), NoGap)
  {
    hide LoadNew, LoadTried, NewOK, AddrOK, TriedOK, NewIds, TriedIds;
    var m := LoadAsFar(h, d);
    if |d.records| < d.nNew {
      assert m.mapInfo[|d.records|] == UNSET;
    } else {
      TriedLoaded(h, d, |d.records| - d.nNew);
      assert m.nTried == d.nTried;
    }
  }
}
