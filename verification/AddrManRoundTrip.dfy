/** Writing an address manager and reading it back: the same tables under new ids. */
module AddrManRoundTrip {
  import opened AddrManModel
  import opened AddrManTried
  import opened AddrMan
  import opened AddrManCheck
  import opened AddrManDisk
  import opened AddrManLoad
  import opened Iteration

  /** m' has the tables of m, entry ids[i] of m being entry i of m'; only memory-only fields differ. */
  ghost predicate Renumbered(m: Man, m': Man, ids: seq<Id>) {
    && Lists(ids, m.mapInfo.Keys)
    && m'.key == m.key && m'.nNew == m.nNew && m'.nTried == m.nTried
    && (forall i :: i in m'.mapInfo <==> 0 <= i < |ids|)
    && (forall i :: 0 <= i < |ids| ==> m'.mapInfo[i] == m.mapInfo[ids[i]].(lastTry := 0, randomPos := i))
    && m'.mapAddr.Keys == m.mapAddr.Keys
    && (forall a :: a in m'.mapAddr ==> m'.mapAddr[a] < |ids| && ids[m'.mapAddr[a]] == m.mapAddr[a])
    && |m'.vvNew| == |m.vvNew| && |m'.vvTried| == |m.vvTried|
    && (forall b, i :: 0 <= b < |m.vvNew| && 0 <= i < |ids| ==> (i in m'.vvNew[b] <==> ids[i] in m.vvNew[b]))
    && (forall b, i :: 0 <= b < |m.vvTried| && 0 <= i < |ids| ==> (i in m'.vvTried[b] <==> ids[i] in m.vvTried[b]))
    && (forall b :: 0 <= b < |m.vvTried| ==> |m'.vvTried[b]| == |m.vvTried[b]|)
  }

  // ---------------------------------------------------------------- what was written

  /** The order of the records: all entries once, the new ones first. */
  ghost predicate Ordered(h: Hashing, m: Man, ids: seq<Id>) {
    && Consistent(h, m, NoGap) && Lists(ids, m.mapInfo.Keys)
    && 0 <= m.nNew && 0 <= m.nTried && |ids| == m.nNew + m.nTried
    && (forall i :: 0 <= i < |ids| ==> ids[i] in m.mapInfo && (m.mapInfo[ids[i]].inTried <==> i >= m.nNew))
  }

  lemma ListsAppend(a: seq<Id>, s: set<Id>, b: seq<Id>, t: set<Id>)
    requires Lists(a, s) && Lists(b, t) && s !! t
    ensures Lists(a + b, s + t) && |a| == |s| && |b| == |t|
    ensures forall i :: 0 <= i < |a + b| ==> if i < |a| then (a + b)[i] in s else (a + b)[i] in t
  {
    DistinctCard(a);
    DistinctCard(b);
    var ab := a + b;
    assert Elements(ab) == Elements(a) + Elements(b);
    forall i | 0 <= i < |ab| ensures if i < |a| then ab[i] in s else ab[i] in t {
      if i < |a| { assert ab[i] in Elements(a); } else { assert ab[i] in Elements(b); }
    }
  }

  lemma SavesSize(info: map<Id, Info>, ids: seq<Id>, records: seq<Saved>)
    requires Saves(info, ids, records)
    ensures |records| == |ids|
  {
  }

  lemma WrittenOrdered(h: Hashing, m: Man, d: Disk, news: seq<Id>, trieds: seq<Id>)
    requires Consistent(h, m, NoGap) && Written(m, d, news, trieds)
    ensures Ordered(h, m, news + trieds) && |news| == m.nNew
    ensures Complete(d) && d.nNew == m.nNew && d.nTried == m.nTried
  {
    hide Consistent, Lists, Positions, Saves;
    WriteFacts(h, m);
    SavesSize(m.mapInfo, news + trieds, d.records);
    ListsAppend(news, NewIds(m.mapInfo, NoGap), trieds, TriedIds(m.mapInfo));
    assert NewIds(m.mapInfo, NoGap) + TriedIds(m.mapInfo) == m.mapInfo.Keys;
  }

  lemma OrderedDistinct(h: Hashing, m: Man, ids: seq<Id>, i: nat, j: nat)
    requires Ordered(h, m, ids) && i < |ids| && j < |ids| && i != j
    ensures ids[i] != ids[j] && m.mapInfo[ids[i]].svc.ip != m.mapInfo[ids[j]].svc.ip
  {
    assert AddrOK(m.mapInfo, m.mapAddr);
  }

  // ---------------------------------------------------------------- the records

  /** Entry i as the records restore it. */
  ghost function Moved(m: Man, ids: seq<Id>, i: nat): Info
    requires i < |ids| && ids[i] in m.mapInfo
  {
    Fresh(Save(m.mapInfo[ids[i]]), i).(inTried := m.mapInfo[ids[i]].inTried)
  }

  /** The first k records are restored. */
  ghost predicate Stage(h: Hashing, m: Man, ids: seq<Id>, k: nat, s: Man)
    requires Ordered(h, m, ids)
  {
    && k <= |ids| && s.key == m.key && s.nTried == m.nTried && s.nNew == m.nNew
    && |s.vRandom| == k && (forall i :: 0 <= i < k ==> s.vRandom[i] == i)
    && (forall i :: i in s.mapInfo <==> 0 <= i < k)
    && (forall i :: 0 <= i < k ==> s.mapInfo[i] == Moved(m, ids, i))
    && AddrOK(s.mapInfo, s.mapAddr) && TriedOK(h, s.key, s.mapInfo, s.vvTried)
    && |s.vvNew| == NEW_BUCKET_COUNT && (forall b :: 0 <= b < |s.vvNew| ==> s.vvNew[b] == {})
  }

  lemma AddrAdd(info: map<Id, Info>, addr: map<NetAddr, Id>, n: Id, i: Info)
    requires AddrOK(info, addr) && n !in info
    requires forall x :: x in info ==> info[x].svc.ip != i.svc.ip
    ensures AddrOK(info[n := i], addr[i.svc.ip := n])
  {
  }

  lemma TriedAddUntried(h: Hashing, key: seq<nat>, info: map<Id, Info>, vvTried: seq<seq<Id>>, n: Id, i: Info)
    requires TriedOK(h, key, info, vvTried) && n !in info && !i.inTried
    ensures TriedOK(h, key, info[n := i], vvTried)
  {
  }

  lemma TriedAddTried(h: Hashing, key: seq<nat>, info: map<Id, Info>, vvTried: seq<seq<Id>>, n: Id, i: Info, b: nat)
    requires TriedOK(h, key, info, vvTried) && n !in info && i.inTried
    requires b == TriedBucket(h, key, i.svc) && |vvTried[b]| < TRIED_BUCKET_SIZE
    ensures TriedOK(h, key, info[n := i], vvTried[b := vvTried[b] + [n]])
  {
    var i0 := i.(inTried := false);
    TriedAddUntried(h, key, info, vvTried, n, i0);
    PlaceTriedOK(h, key, info[n := i0], vvTried, n, b);
    assert info[n := i0][n := i0.(inTried := true)] == info[n := i];
  }

  lemma FreshAddress(h: Hashing, m: Man, ids: seq<Id>, k: nat, s: Man)
    requires Ordered(h, m, ids) && Stage(h, m, ids, k, s) && k < |ids|
    ensures forall x :: x in s.mapInfo ==> s.mapInfo[x].svc.ip != m.mapInfo[ids[k]].svc.ip
  {
    forall x | x in s.mapInfo ensures s.mapInfo[x].svc.ip != m.mapInfo[ids[k]].svc.ip {
      OrderedDistinct(h, m, ids, x, k);
    }
  }

  /** What a place of a restored tried bucket stands for is in the original bucket. */
  lemma TriedStands(h: Hashing, m: Man, ids: seq<Id>, k: nat, s: Man, b: nat, j: nat)
    requires Ordered(h, m, ids) && Stage(h, m, ids, k, s) && b < |s.vvTried| && j < |s.vvTried[b]|
    ensures b < |m.vvTried| && s.vvTried[b][j] < k <= |ids| && ids[s.vvTried[b][j]] in m.vvTried[b]
  {
    hide Consistent, AddrOK;
    OrderedParts(h, m, ids);
    assert TriedAt(s.vvTried, b, j, s.vvTried[b][j]);
  }

  lemma TriedOnce(h: Hashing, key: seq<nat>, info: map<Id, Info>, vvTried: seq<seq<Id>>, b: nat)
    requires TriedOK(h, key, info, vvTried) && b < |vvTried|
    ensures Distinct(vvTried[b])
  {
    forall i, j | 0 <= i < j < |vvTried[b]| ensures vvTried[b][i] != vvTried[b][j] {
      assert TriedAt(vvTried, b, i, vvTried[b][i]) && TriedAt(vvTried, b, j, vvTried[b][j]);
    }
  }

  lemma StageTried(h: Hashing, m: Man, ids: seq<Id>, k: nat, s: Man)
    requires Ordered(h, m, ids) && Stage(h, m, ids, k, s)
    ensures TriedOK(h, s.key, s.mapInfo, s.vvTried) && k <= |ids| && |s.vvTried| == |m.vvTried|
  {
  }

  /** The ids a restored tried bucket stands for are distinct members of the original bucket. */
  lemma TriedImage(h: Hashing, m: Man, ids: seq<Id>, k: nat, s: Man, b: nat) returns (u: seq<Id>)
    requires Ordered(h, m, ids) && Stage(h, m, ids, k, s) && b < |s.vvTried|
    ensures |u| == |s.vvTried[b]| && Distinct(u)
    ensures k <= |ids| && forall j :: 0 <= j < |u| ==> s.vvTried[b][j] < k && u[j] == ids[s.vvTried[b][j]]
    ensures b < |m.vvTried| && forall j :: 0 <= j < |u| ==> u[j] in m.vvTried[b]
  {
    hide Ordered, Stage, TriedOK;
    StageTried(h, m, ids, k, s);
    TriedOnce(h, s.key, s.mapInfo, s.vvTried, b);
    var v := s.vvTried[b];
    forall j | 0 <= j < |v| ensures v[j] < k && ids[v[j]] in m.vvTried[b] {
      TriedStands(h, m, ids, k, s, b, j);
    }
    u := seq(|v|, j requires 0 <= j < |v| => ids[v[j]]);
    forall i, j | 0 <= i < j < |u| ensures u[i] != u[j] {
      OrderedDistinct(h, m, ids, v[i], v[j]);
    }
  }

  /** A tried record always finds room: its original bucket held it together with all that is there already. */
  lemma RoomLeft(h: Hashing, m: Man, ids: seq<Id>, k: nat, s: Man, b: nat)
    requires Ordered(h, m, ids) && Stage(h, m, ids, k, s) && m.nNew <= k < |ids|
    requires b == TriedBucket(h, m.key, m.mapInfo[ids[k]].svc)
    ensures b < |s.vvTried| && |s.vvTried[b]| < TRIED_BUCKET_SIZE
  {
    var u := TriedImage(h, m, ids, k, s, b);
    forall j | 0 <= j < |u| ensures u[j] != ids[k] {
      OrderedDistinct(h, m, ids, s.vvTried[b][j], k);
    }
    assert TriedOK(h, m.key, m.mapInfo, m.vvTried);
    hide Ordered, Stage, TriedOK;
    var v := u + [ids[k]];
    assert Distinct(v);
    DistinctCard(v);
    ElementsCard(m.vvTried[b]);
    SubsetCard(Elements(v), Elements(m.vvTried[b]));
  }

  lemma NewRecordStage(h: Hashing, m: Man, ids: seq<Id>, k: nat, s: Man, s': Man)
    requires Ordered(h, m, ids) && Stage(h, m, ids, k, s) && k < m.nNew
    requires s' == AddNewRecord(h, s, k, Save(m.mapInfo[ids[k]]), false)
    ensures Stage(h, m, ids, k + 1, s')
  {
    var i := Fresh(Save(m.mapInfo[ids[k]]), k);
    FreshAddress(h, m, ids, k, s);
    AddrAdd(s.mapInfo, s.mapAddr, k, i);
    TriedAddUntried(h, s.key, s.mapInfo, s.vvTried, k, i);
    assert i == Moved(m, ids, k);
    StageGrows(h, m, ids, k, s, s');
  }

  lemma TriedRecordStage(h: Hashing, m: Man, ids: seq<Id>, k: nat, s: Man, s': Man)
    requires Ordered(h, m, ids) && Stage(h, m, ids, k, s) && m.nNew <= k < |ids| && s.idCount == k
    requires s' == AddTriedRecord(h, s, Save(m.mapInfo[ids[k]]))
    ensures Stage(h, m, ids, k + 1, s') && s'.idCount == k + 1
  {
    var i := Fresh(Save(m.mapInfo[ids[k]]), k).(inTried := true);
    var b := TriedBucket(h, s.key, m.mapInfo[ids[k]].svc);
    FreshAddress(h, m, ids, k, s);
    RoomLeft(h, m, ids, k, s, b);
    AddrAdd(s.mapInfo, s.mapAddr, k, i);
    TriedAddTried(h, s.key, s.mapInfo, s.vvTried, k, i, b);
    assert i == Moved(m, ids, k);
    StageGrows(h, m, ids, k, s, s');
  }

  /** One more record, whichever it is. */
  lemma StageGrows(h: Hashing, m: Man, ids: seq<Id>, k: nat, s: Man, s': Man)
    requires Ordered(h, m, ids) && Stage(h, m, ids, k, s) && k < |ids|
    requires s'.mapInfo == s.mapInfo[k := Moved(m, ids, k)] && s'.vRandom == s.vRandom + [k]
    requires s'.key == s.key && s'.nTried == s.nTried && s'.nNew == s.nNew && s'.vvNew == s.vvNew
    requires AddrOK(s'.mapInfo, s'.mapAddr) && TriedOK(h, s'.key, s'.mapInfo, s'.vvTried)
    ensures Stage(h, m, ids, k + 1, s')
  {
    hide Ordered, AddrOK, TriedOK;
  }

  lemma OrderedSize(h: Hashing, m: Man, ids: seq<Id>)
    requires Ordered(h, m, ids)
    ensures 0 <= m.nNew && 0 <= m.nTried && |ids| == m.nNew + m.nTried
    ensures forall i :: 0 <= i < |ids| ==> ids[i] in m.mapInfo
    ensures |m.vvNew| == NEW_BUCKET_COUNT
  {
  }

  lemma ClearedStage(h: Hashing, m: Man, d: Disk, ids: seq<Id>)
    requires Ordered(h, m, ids) && d.key == m.key && d.nNew == m.nNew && d.nTried == m.nTried
    ensures Stage(h, m, ids, 0, Cleared(d))
  {
  }

  lemma {:induction false} LoadNewStage(h: Hashing, m: Man, d: Disk, ids: seq<Id>, k: nat)
    requires Ordered(h, m, ids) && Saves(m.mapInfo, ids, d.records) && k <= m.nNew
    requires d.key == m.key && d.nNew == m.nNew && d.nTried == m.nTried && d.nUBuckets == NEW_BUCKET_COUNT
    ensures Stage(h, m, ids, k, LoadNew(h, d, k))
  {
    hide Ordered, Stage, Cleared, AddNewRecord;
    OrderedSize(h, m, ids);
    if k == 0 {
      ClearedStage(h, m, d, ids);
    } else {
      LoadNewStage(h, m, d, ids, k - 1);
      NewRecordStage(h, m, ids, k - 1, LoadNew(h, d, k - 1), LoadNew(h, d, k));
    }
  }

  lemma CountStage(h: Hashing, m: Man, ids: seq<Id>, k: nat, s: Man)
    requires Ordered(h, m, ids) && Stage(h, m, ids, k, s)
    ensures Stage(h, m, ids, k, s.(idCount := k))
  {
    hide Ordered, AddrOK, TriedOK;
  }

  lemma {:induction false} LoadTriedStage(h: Hashing, m: Man, d: Disk, ids: seq<Id>, n: nat)
    requires Ordered(h, m, ids) && Saves(m.mapInfo, ids, d.records) && n <= m.nTried
    requires d.key == m.key && d.nNew == m.nNew && d.nTried == m.nTried && d.nUBuckets == NEW_BUCKET_COUNT
    ensures m.nNew >= 0 && m.nNew + n <= |d.records|
    ensures Stage(h, m, ids, m.nNew + n, LoadTried(h, d, n)) && LoadTried(h, d, n).idCount == m.nNew + n
  {
    hide Ordered, Stage, AddTriedRecord, LoadNew;
    OrderedSize(h, m, ids);
    if n == 0 {
      LoadNewStage(h, m, d, ids, m.nNew);
      CountStage(h, m, ids, m.nNew, LoadNew(h, d, m.nNew));
    } else {
      LoadTriedStage(h, m, d, ids, n - 1);
      TriedRecordStage(h, m, ids, m.nNew + n - 1, LoadTried(h, d, n - 1), LoadTried(h, d, n));
    }
  }

  // ---------------------------------------------------------------- the positions

  /** The entry counts one more reference if it is listed. */
  ghost predicate CountedOnce(info: map<Id, Info>, info': map<Id, Info>, list: seq<nat>) {
    && info'.Keys == info.Keys
    && forall i :: i in info ==> info'[i] == info[i].(refCount := info[i].refCount + if i in list then 1 else 0)
  }

  lemma PositionStep(s: Man, s1: Man, b: nat, list: seq<nat>, i: nat)
    requires b < |s.vvNew| && i in s.mapInfo && i !in list && s.mapInfo[i].refCount < NEW_BUCKETS_PER_ADDRESS
    requires s1 == s.(mapInfo := s1.mapInfo, vvNew := s.vvNew[b := s.vvNew[b] + Elements(list)])
    requires CountedOnce(s.mapInfo, s1.mapInfo, list)
    ensures var s' := AddPosition(s1, b, i, true);
            && s' == s.(mapInfo := s'.mapInfo, vvNew := s.vvNew[b := s.vvNew[b] + Elements(list + [i])])
            && CountedOnce(s.mapInfo, s'.mapInfo, list + [i])
  {
    assert s1.mapInfo[i].refCount == s.mapInfo[i].refCount;
    assert s.vvNew[b] + Elements(list + [i]) == s.vvNew[b] + Elements(list) + {i};
  }

  lemma {:induction false} LoadBucketShape(s: Man, b: nat, list: seq<nat>, k: nat)
    requires k <= |list| && Distinct(list) && b < |s.vvNew|
    requires forall j :: 0 <= j < |list| ==>
               list[j] in s.mapInfo && s.mapInfo[list[j]].refCount < NEW_BUCKETS_PER_ADDRESS
    ensures var s' := LoadBucket(s, b, list, k, true);
            && s' == s.(mapInfo := s'.mapInfo, vvNew := s.vvNew[b := s.vvNew[b] + Elements(list[..k])])
            && CountedOnce(s.mapInfo, s'.mapInfo, list[..k])
  {
    if k == 0 {
      assert s.vvNew[b] + Elements(list[..0]) == s.vvNew[b];
      assert s.vvNew == s.vvNew[b := s.vvNew[b]];
    } else {
      LoadBucketShape(s, b, list, k - 1);
      var s1, i := LoadBucket(s, b, list, k - 1, true), list[k - 1];
      assert list[..k] == list[..k - 1] + [i] && i !in list[..k - 1];
      hide LoadBucket;
      PositionStep(s, s1, b, list[..k - 1], i);
    }
  }

  /** The first b buckets are restored, over the records s0. */
  ghost predicate RefStage(m: Man, ids: seq<Id>, s0: Man, b: nat, s: Man) {
    && s == s0.(mapInfo := s.mapInfo, vvNew := s.vvNew)
    && |s.vvNew| == |m.vvNew|
    && s.mapInfo.Keys == s0.mapInfo.Keys
    && (forall i :: i in s.mapInfo ==>
          i < |ids| && s.mapInfo[i] == s0.mapInfo[i].(refCount := |Below(m.vvNew, ids[i], b)|))
    && (forall c :: 0 <= c < |s.vvNew| ==> Held(m, ids, b, c, s.vvNew[c]))
  }

  /** Bucket c, with the first b restored. */
  ghost predicate Held(m: Man, ids: seq<Id>, b: nat, c: nat, bucket: set<Id>)
    requires c < |m.vvNew|
  {
    if c < b then forall i :: i in bucket <==> 0 <= i < |ids| && ids[i] in m.vvNew[c] else bucket == {}
  }

  /** The written positions of a bucket are those of its members in the record order. */
  lemma PositionsExact(ids: seq<Id>, nNew: nat, bucket: set<Id>, list: seq<nat>)
    requires Distinct(ids) && nNew <= |ids| && Positions(ids[..nNew], bucket, list)
    ensures Distinct(list)
    ensures forall i: nat :: i in list <==> i < |ids| && ids[i] in bucket
  {
    var news := ids[..nNew];
    forall i: nat ensures i in list <==> i < |ids| && ids[i] in bucket {
      if i in list {
        var k :| 0 <= k < |list| && list[k] == i;
        assert news[list[k]] == ids[i];
      }
      if i < |ids| && ids[i] in bucket {
        var k :| 0 <= k < |list| && list[k] < |news| && news[list[k]] == ids[i];
        assert ids[list[k]] == ids[i];
      }
    }
  }

  lemma RefRoom(m: Man, b: nat, x: Id)
    requires NewOK(m.mapInfo, m.vvNew, NoGap) && b < |m.vvNew| && x in m.vvNew[b] && x in m.mapInfo
    ensures |Below(m.vvNew, x, b)| < NEW_BUCKETS_PER_ADDRESS
  {
    assert RefOK(m.mapInfo[x], |Holding(m.vvNew, x)|, x, NoGap);
    BelowStep(m.vvNew, x, b);
    BelowAll(m.vvNew, x, b + 1);
  }

  lemma RefStep(h: Hashing, m: Man, ids: seq<Id>, s0: Man, b: nat, s: Man, list: seq<nat>)
    requires Ordered(h, m, ids) && RefStage(m, ids, s0, b, s) && b < |m.vvNew|
    requires forall i :: i in s0.mapInfo <==> 0 <= i < |ids|
    requires Positions(ids[..m.nNew], m.vvNew[b], list)
    ensures RefStage(m, ids, s0, b + 1, LoadBucket(s, b, list, |list|, true))
  {
    hide Ordered, Positions, LoadBucket, Held, NewOK, TriedOK, AddrOK, CountOK;
    OrderedParts(h, m, ids);
    OrderedSize(h, m, ids);
    PositionsExact(ids, m.nNew, m.vvNew[b], list);
    forall j | 0 <= j < |list| ensures list[j] in s.mapInfo && s.mapInfo[list[j]].refCount < NEW_BUCKETS_PER_ADDRESS {
      assert list[j] in list;
      RefRoom(m, b, ids[list[j]]);
    }
    LoadBucketShape(s, b, list, |list|);
    assert list[..|list|] == list;
    RefMerge(m, ids, s0, b, s, LoadBucket(s, b, list, |list|, true), list);
  }

  lemma RefMerge(m: Man, ids: seq<Id>, s0: Man, b: nat, s: Man, s': Man, list: seq<nat>)
    requires RefStage(m, ids, s0, b, s) && b < |m.vvNew|
    requires s' == s.(mapInfo := s'.mapInfo, vvNew := s.vvNew[b := s.vvNew[b] + Elements(list)])
    requires CountedOnce(s.mapInfo, s'.mapInfo, list)
    requires forall i: nat :: i in list <==> i < |ids| && ids[i] in m.vvNew[b]
    ensures RefStage(m, ids, s0, b + 1, s')
  {
    forall i | i in s'.mapInfo ensures s'.mapInfo[i] == s0.mapInfo[i].(refCount := |Below(m.vvNew, ids[i], b + 1)|) {
      BelowStep(m.vvNew, ids[i], b);
    }
    forall c | 0 <= c < |s'.vvNew| ensures Held(m, ids, b + 1, c, s'.vvNew[c]) {
      assert Held(m, ids, b, c, s.vvNew[c]);
      if c == b { assert s'.vvNew[c] == Elements(list); }
    }
  }

  lemma {:induction false} LoadBucketsStage(h: Hashing, m: Man, ids: seq<Id>, s0: Man, d: Disk, b: nat)
    requires Ordered(h, m, ids) && RefStage(m, ids, s0, 0, s0)
    requires forall i :: i in s0.mapInfo <==> 0 <= i < |ids|
    requires |d.buckets| == |m.vvNew| && b <= |d.buckets| && d.nUBuckets == NEW_BUCKET_COUNT && 0 <= m.nNew <= |ids|
    requires forall c :: 0 <= c < |m.vvNew| ==> Positions(ids[..m.nNew], m.vvNew[c], d.buckets[c])
    ensures RefStage(m, ids, s0, b, LoadBuckets(s0, d, b))
  {
    hide Ordered, RefStage, Positions, LoadBucket;
    if b > 0 {
      LoadBucketsStage(h, m, ids, s0, d, b - 1);
      RefStep(h, m, ids, s0, b - 1, LoadBuckets(s0, d, b - 1), d.buckets[b - 1]);
    }
  }

  // ---------------------------------------------------------------- the round trip

  /** Corresponding sets have the same size. */
  lemma {:induction false} SameSize(ids: seq<Id>, a: set<Id>, b: set<Id>)
    requires Distinct(ids) && b <= Elements(ids)
    requires forall i :: i in a <==> 0 <= i < |ids| && ids[i] in b
    ensures |a| == |b|
    decreases |b|
  {
    if b == {} {
      assert a == {};
    } else {
      var x: Id := Member(b);
      assert x in Elements(ids);
      var i: nat :| i < |ids| && ids[i] == x;
      SameSize(ids, a - {i}, b - {x});
    }
  }

  /** Every entry is back as it was, but for its memory-only fields. */
  lemma EntriesBack(h: Hashing, m: Man, ids: seq<Id>, s0: Man, s: Man, i: nat)
    requires Ordered(h, m, ids) && Stage(h, m, ids, |ids|, s0) && RefStage(m, ids, s0, |m.vvNew|, s) && i < |ids|
    ensures i in s.mapInfo && s.mapInfo[i] == m.mapInfo[ids[i]].(lastTry := 0, randomPos := i)
  {
    var x := ids[i];
    assert RefOK(m.mapInfo[x], |Holding(m.vvNew, x)|, x, NoGap);
    BelowAll(m.vvNew, x, |m.vvNew|);
    assert s0.mapInfo[i] == Moved(m, ids, i);
  }

  /** The entries and the new buckets, as the next lemmas need them. */
  ghost predicate Back(m: Man, ids: seq<Id>, s: Man) {
    && (forall i :: i in s.mapInfo <==> 0 <= i < |ids|)
    && (forall i :: 0 <= i < |ids| ==> ids[i] in m.mapInfo)
    && (forall i :: 0 <= i < |ids| ==> s.mapInfo[i] == m.mapInfo[ids[i]].(lastTry := 0, randomPos := i))
    && |s.vvNew| == |m.vvNew|
    && (forall b :: 0 <= b < |m.vvNew| ==> Held(m, ids, |m.vvNew|, b, s.vvNew[b]))
  }

  lemma StageTables(h: Hashing, m: Man, ids: seq<Id>, s0: Man, s: Man)
    requires Ordered(h, m, ids) && Stage(h, m, ids, |ids|, s0) && RefStage(m, ids, s0, |m.vvNew|, s)
    ensures s.idCount == s0.idCount && s.key == m.key && s.nTried == m.nTried && s.nNew == m.nNew
    ensures AddrOK(s.mapInfo, s.mapAddr) && TriedOK(h, s.key, s.mapInfo, s.vvTried)
    ensures forall i :: i in s.mapInfo <==> 0 <= i < |ids|
    ensures |s.vRandom| == |ids| && forall i :: 0 <= i < |ids| ==> s.vRandom[i] == i
    ensures |s.vvNew| == |m.vvNew| && forall b :: 0 <= b < |s.vvNew| ==> Held(m, ids, |m.vvNew|, b, s.vvNew[b])
  {
    hide Ordered, AddrOK, TriedOK, Held;
    AddrFrame(s0.mapInfo, s.mapInfo, s0.mapAddr);
    TriedFrame(h, s0.key, s0.mapInfo, s.mapInfo, s0.vvTried);
  }

  lemma StageBack(h: Hashing, m: Man, ids: seq<Id>, s0: Man, s: Man)
    requires Ordered(h, m, ids) && Stage(h, m, ids, |ids|, s0) && RefStage(m, ids, s0, |m.vvNew|, s)
    ensures Back(m, ids, s) && RandomOK(s.mapInfo, s.vRandom)
  {
    hide Ordered, Stage, RefStage, AddrOK, TriedOK, Held;
    StageTables(h, m, ids, s0, s);
    OrderedSize(h, m, ids);
    forall i | 0 <= i < |ids| ensures s.mapInfo[i] == m.mapInfo[ids[i]].(lastTry := 0, randomPos := i) {
      EntriesBack(h, m, ids, s0, s, i);
    }
  }

  lemma NewBack(h: Hashing, m: Man, ids: seq<Id>, s: Man)
    requires Lists(ids, m.mapInfo.Keys) && NewOK(m.mapInfo, m.vvNew, NoGap) && Back(m, ids, s)
    ensures NewOK(s.mapInfo, s.vvNew, NoGap)
  {
    forall i | i in s.mapInfo ensures RefOK(s.mapInfo[i], |Holding(s.vvNew, i)|, i, NoGap) {
      forall b: nat | b < |m.vvNew| ensures i in s.vvNew[b] <==> ids[i] in m.vvNew[b] {
        assert Held(m, ids, |m.vvNew|, b, s.vvNew[b]);
      }
      assert Holding(s.vvNew, i) == Holding(m.vvNew, ids[i]);
      assert RefOK(m.mapInfo[ids[i]], |Holding(m.vvNew, ids[i])|, ids[i], NoGap);
    }
    forall b | 0 <= b < |s.vvNew| ensures s.vvNew[b] <= s.mapInfo.Keys && |s.vvNew[b]| <= NEW_BUCKET_SIZE {
      assert Held(m, ids, |m.vvNew|, b, s.vvNew[b]);
      assert m.vvNew[b] <= m.mapInfo.Keys && |m.vvNew[b]| <= NEW_BUCKET_SIZE;
      SameSize(ids, s.vvNew[b], m.vvNew[b]);
    }
  }

  lemma CountBack(m: Man, ids: seq<Id>, s: Man)
    requires Lists(ids, m.mapInfo.Keys) && CountOK(m.mapInfo, m.nTried, m.nNew, NoGap) && Back(m, ids, s)
    requires s.nTried == m.nTried && s.nNew == m.nNew
    ensures CountOK(s.mapInfo, s.nTried, s.nNew, NoGap)
  {
    SameSize(ids, TriedIds(s.mapInfo), TriedIds(m.mapInfo));
    SameSize(ids, NewIds(s.mapInfo, NoGap), NewIds(m.mapInfo, NoGap));
  }

  lemma TriedBack(h: Hashing, m: Man, ids: seq<Id>, s: Man, b: nat)
    requires Lists(ids, m.mapInfo.Keys) && Back(m, ids, s) && s.key == m.key && b < |m.vvTried|
    requires TriedOK(h, m.key, m.mapInfo, m.vvTried) && TriedOK(h, s.key, s.mapInfo, s.vvTried)
    ensures b < |s.vvTried| && |s.vvTried[b]| == |m.vvTried[b]|
    ensures forall i: nat :: i in s.vvTried[b] <==> i < |ids| && ids[i] in m.vvTried[b]
  {
    TriedMembers(h, m.key, m.mapInfo, m.vvTried, b);
    TriedMembers(h, s.key, s.mapInfo, s.vvTried, b);
    hide TriedOK;
    forall x | x in Elements(m.vvTried[b]) ensures x in Elements(ids) {
      assert x in m.mapInfo.Keys;
    }
    SameSize(ids, Elements(s.vvTried[b]), Elements(m.vvTried[b]));
    DistinctCard(s.vvTried[b]);
    DistinctCard(m.vvTried[b]);
  }

  lemma TriedMembers(h: Hashing, key: seq<nat>, info: map<Id, Info>, vvTried: seq<seq<Id>>, b: nat)
    requires TriedOK(h, key, info, vvTried) && b < TRIED_BUCKET_COUNT
    ensures |vvTried| == TRIED_BUCKET_COUNT && Distinct(vvTried[b])
    ensures forall x :: x in vvTried[b] <==> x in info && info[x].inTried && TriedBucket(h, key, info[x].svc) == b
  {
    TriedOnce(h, key, info, vvTried, b);
    forall x | x in vvTried[b] ensures x in info && info[x].inTried && TriedBucket(h, key, info[x].svc) == b {
      var p :| 0 <= p < |vvTried[b]| && vvTried[b][p] == x;
      assert TriedAt(vvTried, b, p, x);
    }
  }

  lemma AddrBack(m: Man, ids: seq<Id>, s: Man)
    requires Lists(ids, m.mapInfo.Keys) && Back(m, ids, s)
    requires AddrOK(m.mapInfo, m.mapAddr) && AddrOK(s.mapInfo, s.mapAddr)
    ensures s.mapAddr.Keys == m.mapAddr.Keys
    ensures forall a :: a in s.mapAddr ==> s.mapAddr[a] < |ids| && ids[s.mapAddr[a]] == m.mapAddr[a]
  {
    hide Lists, Back, AddrOK;
    forall a | a in m.mapAddr ensures a in s.mapAddr {
      AddrKept(m, ids, s, a);
    }
    forall a | a in s.mapAddr ensures a in m.mapAddr && s.mapAddr[a] < |ids| && ids[s.mapAddr[a]] == m.mapAddr[a] {
      AddrFound(m, ids, s, a);
    }
  }

  lemma AddrKept(m: Man, ids: seq<Id>, s: Man, a: NetAddr)
    requires Lists(ids, m.mapInfo.Keys) && Back(m, ids, s)
    requires AddrOK(m.mapInfo, m.mapAddr) && AddrOK(s.mapInfo, s.mapAddr)
    requires a in m.mapAddr
    ensures a in s.mapAddr
  {
    assert m.mapAddr[a] in Elements(ids);
    var i: nat :| i < |ids| && ids[i] == m.mapAddr[a];
    assert s.mapInfo[i].svc.ip == a;
  }

  lemma AddrFound(m: Man, ids: seq<Id>, s: Man, a: NetAddr)
    requires Back(m, ids, s) && AddrOK(m.mapInfo, m.mapAddr) && AddrOK(s.mapInfo, s.mapAddr)
    requires a in s.mapAddr
    ensures a in m.mapAddr && s.mapAddr[a] < |ids| && ids[s.mapAddr[a]] == m.mapAddr[a]
  {
    assert m.mapInfo[ids[s.mapAddr[a]]].svc.ip == a;
  }

  lemma OrderedParts(h: Hashing, m: Man, ids: seq<Id>)
    requires Ordered(h, m, ids)
    ensures Lists(ids, m.mapInfo.Keys) && AddrOK(m.mapInfo, m.mapAddr) && NewOK(m.mapInfo, m.vvNew, NoGap)
    ensures TriedOK(h, m.key, m.mapInfo, m.vvTried) && CountOK(m.mapInfo, m.nTried, m.nNew, NoGap)
  {
  }

  lemma BackConsistent(h: Hashing, m: Man, ids: seq<Id>, s0: Man, s: Man)
    requires Ordered(h, m, ids) && Stage(h, m, ids, |ids|, s0) && s0.idCount == |ids|
    requires RefStage(m, ids, s0, |m.vvNew|, s)
    ensures Consistent(h, s, NoGap)
  {
    hide Ordered, Stage, RefStage, NewOK, TriedOK, AddrOK, RandomOK, CountOK, Held, Lists;
    OrderedParts(h, m, ids);
    StageTables(h, m, ids, s0, s);
    StageBack(h, m, ids, s0, s);
    NewBack(h, m, ids, s);
    CountBack(m, ids, s);
  }

  lemma BackRenumbered(h: Hashing, m: Man, ids: seq<Id>, s0: Man, s: Man)
    requires Ordered(h, m, ids) && Stage(h, m, ids, |ids|, s0)
    requires RefStage(m, ids, s0, |m.vvNew|, s)
    ensures Renumbered(m, s, ids)
  {
    hide Ordered, Stage, RefStage, NewOK, TriedOK, AddrOK, RandomOK, CountOK, Lists;
    OrderedParts(h, m, ids);
    StageTables(h, m, ids, s0, s);
    StageBack(h, m, ids, s0, s);
    AddrBack(m, ids, s);
    TriedSizes(h, m, ids, s);
    forall b: nat, i: nat | b < |m.vvTried| && i < |ids| ensures i in s.vvTried[b] <==> ids[i] in m.vvTried[b] {
      TriedBack(h, m, ids, s, b);
    }
    forall b: nat, i: nat | b < |m.vvNew| && i < |ids| ensures i in s.vvNew[b] <==> ids[i] in m.vvNew[b] {
      assert Held(m, ids, |m.vvNew|, b, s.vvNew[b]);
    }
  }

  lemma TriedSizes(h: Hashing, m: Man, ids: seq<Id>, s: Man)
    requires Lists(ids, m.mapInfo.Keys) && Back(m, ids, s) && s.key == m.key
    requires TriedOK(h, m.key, m.mapInfo, m.vvTried) && TriedOK(h, s.key, s.mapInfo, s.vvTried)
    ensures |s.vvTried| == |m.vvTried|
    ensures forall b :: 0 <= b < |m.vvTried| ==> |s.vvTried[b]| == |m.vvTried[b]|
  {
    assert |s.vvTried| == |m.vvTried|;
    hide TriedOK, Back, Lists;
    forall b | 0 <= b < |m.vvTried| ensures |s.vvTried[b]| == |m.vvTried[b]| {
      TriedBack(h, m, ids, s, b);
    }
  }

  /** Reading back what was written restores every table under new ids, consistently and without loss. */
  lemma RoundTrip(h: Hashing, m: Man, d: Disk, news: seq<Id>, trieds: seq<Id>)
    requires Consistent(h, m, NoGap) && Written(m, d, news, trieds)
    ensures Complete(d) && Consistent(h, Load(h, d), NoGap) && Renumbered(m, Load(h, d), news + trieds)
  {
    hide Ordered, Consistent, Stage, RefStage, Positions, Saves, Renumbered, LoadTried, LoadBuckets, Lists, Load;
    var ids := news + trieds;
    WrittenOrdered(h, m, d, news, trieds);
    LoadTriedStage(h, m, d, ids, m.nTried);
    var s0 := LoadTried(h, d, d.nTried);
    OrderedSize(h, m, ids);
    RefStart(h, m, ids, s0);
    assert ids[..m.nNew] == news;
    LoadBucketsStage(h, m, ids, s0, d, |d.buckets|);
    LoadIs(h, d);
    BackConsistent(h, m, ids, s0, Load(h, d));
    BackRenumbered(h, m, ids, s0, Load(h, d));
  }

  lemma LoadIs(h: Hashing, d: Disk)
    requires Complete(d) && |d.buckets| == d.nUBuckets
    ensures Load(h, d) == LoadBuckets(LoadTried(h, d, d.nTried), d, |d.buckets|)
  {
  }

  lemma RefStart(h: Hashing, m: Man, ids: seq<Id>, s0: Man)
    requires Ordered(h, m, ids) && Stage(h, m, ids, |ids|, s0)
    ensures RefStage(m, ids, s0, 0, s0)
    ensures forall i :: i in s0.mapInfo <==> 0 <= i < |ids|
  {
    hide Ordered, AddrOK, TriedOK;
    OrderedSize(h, m, ids);
    forall i | i in s0.mapInfo ensures s0.mapInfo[i] == s0.mapInfo[i].(refCount := |Below(m.vvNew, ids[i], 0)|) {
      assert Below(m.vvNew, ids[i], 0) == {};
      assert s0.mapInfo[i] == Moved(m, ids, i);
    }
  }

  /** One manager written, another made from the file. */
  method SaveAndLoad(m: CAddrMan, into: CAddrMan) returns (ok: bool, ghost ids: seq<Id>)
    requires m != into && m.Valid() && into.hashing == m.hashing
    modifies into
    ensures ok && into.Valid() && Renumbered(m.State(), into.State(), ids)
  {
    hide Consistent, Written, Renumbered, Load, Stored, News, Trieds;
    var d := Write(m);
    StoredWritten(m.hashing, m.State(), d);
    ids := News(m.State()) + Trieds(m.State());
    RoundTrip(m.hashing, m.State(), d, News(m.State()), Trieds(m.State()));
    ok := Read(into, d);
  }
}
