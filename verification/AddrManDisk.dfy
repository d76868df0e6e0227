/**
 The address manager's serializer.  Ids are renumbered on the way: the new
 entries first, then the tried ones, both in ascending id order; the tried
 buckets, the address index and the random order are not written but rebuilt.
 */
module AddrManDisk {
  import opened AddrManModel
  import opened AddrMan
  import opened Iteration

  /** One entry as it is written: without its memory-only fields. */
  datatype Saved = Saved(svc: Service, services: set<nat>, nTime: nat, source: NetAddr, lastSuccess: int, attempts: nat)

  datatype Disk = Disk(
    key: seq<nat>, nNew: int, nTried: int, nUBuckets: nat,
    records: seq<Saved>,            // new entries, then tried ones
    buckets: seq<seq<nat>>)         // for each new bucket, positions in records

  function Save(i: Info): Saved {
    Saved(i.svc, i.services, i.nTime, i.source, i.lastSuccess, i.attempts)
  }

  function Fresh(r: Saved, randomPos: int): Info {
    Info(r.svc, r.services, r.nTime, r.source, r.lastSuccess, 0, r.attempts, 0, false, randomPos)
  }

  // ---------------------------------------------------------------- writing

  ghost predicate Saves(info: map<Id, Info>, ids: seq<Id>, records: seq<Saved>) {
    |records| == |ids| && forall i :: 0 <= i < |ids| ==> ids[i] in info && records[i] == Save(info[ids[i]])
  }

  /** The written positions of a bucket: each of its members once. */
  ghost predicate Positions(news: seq<Id>, bucket: set<Id>, list: seq<nat>) {
    && Distinct(list)
    && (forall k :: 0 <= k < |list| ==> list[k] < |news| && news[list[k]] in bucket)
    && (forall x :: x in bucket ==> exists k :: 0 <= k < |list| && list[k] < |news| && news[list[k]] == x)
  }

  /** A sequence lists a set: each member once, nothing else. */
  ghost predicate Lists(ids: seq<Id>, s: set<Id>) {
    Distinct(ids) && Elements(ids) == s
  }

  /** The members of a set in the order in which a std::map or std::set has them. */
  ghost function Ascending(s: set<Id>): seq<Id>
    decreases |s|
  {
    if s == {} then [] else [Least(s)] + Ascending(s - {Least(s)})
  }

  lemma ListsCons(x: Id, ids: seq<Id>, s: set<Id>)
    requires Lists(ids, s) && x !in s
    ensures Lists([x] + ids, s + {x})
  {
    var all := [x] + ids;
    assert all[0] == x && forall i :: 1 <= i < |all| ==> all[i] == ids[i - 1] && ids[i - 1] in Elements(ids);
    assert Elements(all) == Elements(ids) + {x};
  }

  lemma {:induction false} AscendingLists(s: set<Id>)
    ensures Lists(Ascending(s), s) && |Ascending(s)| == |s|
    decreases |s|
  {
    if s == {} {
      assert Elements(Ascending(s)) == s;
    } else {
      hide Lists;
      var x := Least(s);
      AscendingLists(s - {x});
      ListsCons(x, Ascending(s - {x}), s - {x});
      assert s - {x} + {x} == s;
    }
  }

  /** The first n members, or all of them where n is negative or too large. */
  ghost function FirstOf(s: set<Id>, n: int): seq<Id> {
    var ids := Ascending(s);
    if 0 <= n <= |ids| then ids[..n] else ids
  }

  /** In ascending order each member comes after as many others as its rank says. */
  lemma {:induction false} RankAt(s: set<Id>, x: Id)
    requires x in s
    ensures Rank(s, x) < |Ascending(s)| && Ascending(s)[Rank(s, x)] == x
    decreases |s|
  {
    var y := Least(s);
    if x == y {
      assert Lower(s, x) == {};
    } else {
      RankAt(s - {y}, x);
      assert Lower(s, x) == Lower(s - {y}, x) + {y};
    }
  }

  /** One step of an ascending iteration, seen from a subset of what is iterated. */
  lemma AscendingStep(s: set<Id>, todo: set<Id>)
    requires todo != {}
    ensures var x := Least(todo);
            Ascending(s * todo) == (if x in s then [x] else []) + Ascending(s * (todo - {x}))
  {
    var x := Least(todo);
    if x in s {
      assert s * todo - {x} == s * (todo - {x}) && IsLeast(s * todo, x);
    } else {
      assert s * todo == s * (todo - {x});
    }
  }

  /** The members written as new: those with references. */
  ghost function Referenced(info: map<Id, Info>): set<Id> {
    set id | id in info && info[id].refCount != 0
  }

  ghost function News(m: Man): seq<Id> {
    FirstOf(Referenced(m.mapInfo), m.nNew)
  }

  ghost function Trieds(m: Man): seq<Id> {
    FirstOf(TriedIds(m.mapInfo), m.nTried)
  }

  /** The position written for an id: its place among the new ones as far as these were visited, else 0. */
  ghost function PositionOf(info: map<Id, Info>, nNew: int, x: Id): nat {
    var rank := Rank(Referenced(info), x);
    if x in info && (nNew < 0 || rank < nNew) then rank else 0
  }

  ghost predicate Placed(m: Man, ids: seq<Id>, list: seq<nat>) {
    |list| == |ids| && forall k :: 0 <= k < |ids| ==> list[k] == PositionOf(m.mapInfo, m.nNew, ids[k])
  }

  /** What is written of any manager, consistent or not. */
  ghost predicate Stored(m: Man, d: Disk) {
    && d.key == m.key && d.nNew == m.nNew && d.nTried == m.nTried && d.nUBuckets == NEW_BUCKET_COUNT
    && Saves(m.mapInfo, News(m) + Trieds(m), d.records)
    && |d.buckets| == |m.vvNew|
    && (forall b :: 0 <= b < |m.vvNew| ==> Placed(m, Ascending(m.vvNew[b]), d.buckets[b]))
  }

  ghost predicate Written(m: Man, d: Disk, news: seq<Id>, trieds: seq<Id>) {
    && Lists(news, NewIds(m.mapInfo, NoGap)) && Lists(trieds, TriedIds(m.mapInfo))
    && d.key == m.key && d.nNew == |news| && d.nTried == |trieds| && d.nUBuckets == NEW_BUCKET_COUNT
    && Saves(m.mapInfo, news + trieds, d.records)
    && |d.buckets| == |m.vvNew|
    && (forall b :: 0 <= b < |m.vvNew| ==> Positions(news, m.vvNew[b], d.buckets[b]))
  }

  // ---------------------------------------------------------------- the loops

  /** An iteration over the keys that has come to todo, having met the members of s listed in ids. */
  ghost predicate Visiting(s: set<Id>, keys: set<Id>, todo: set<Id>, ids: seq<Id>, n: int) {
    && todo <= keys && s <= keys
    && (forall x, y :: x in keys && x !in todo && y in todo ==> x < y)
    && Ascending(s) == ids + Ascending(s * todo)
    && (n >= 0 ==> |ids| <= n)
  }

  lemma VisitStart(s: set<Id>, keys: set<Id>, n: int)
    requires s <= keys
    ensures Visiting(s, keys, keys, [], n)
  {
    assert s * keys == s;
  }

  lemma VisitNext(s: set<Id>, keys: set<Id>, todo: set<Id>, ids: seq<Id>, n: int)
    requires Visiting(s, keys, todo, ids, n) && todo != {} && |ids| != n
    ensures var x := Least(todo);
            Visiting(s, keys, todo - {x}, if x in s then ids + [x] else ids, n) && Rank(s, x) == |ids|
  {
    hide Ascending;
    AscendingStep(s, todo);
    VisitedRank(s, keys, todo, ids, n, Least(todo));
  }

  /** Below what the iteration comes to next are exactly the listed members, below the rest at least these. */
  lemma VisitedRank(s: set<Id>, keys: set<Id>, todo: set<Id>, ids: seq<Id>, n: int, x: Id)
    requires Visiting(s, keys, todo, ids, n) && x in todo
    ensures |ids| <= Rank(s, x) && (IsLeast(todo, x) ==> |ids| == Rank(s, x))
  {
    hide Ascending;
    AscendingLists(s);
    AscendingLists(s * todo);
    assert s == s - todo + s * todo;
    SubsetCard(s - todo, Lower(s, x));
    if IsLeast(todo, x) {
      assert s - todo == Lower(s, x);
    }
  }

  lemma VisitEnd(s: set<Id>, keys: set<Id>, todo: set<Id>, ids: seq<Id>, n: int)
    requires Visiting(s, keys, todo, ids, n) && (todo == {} || |ids| == n)
    ensures ids == FirstOf(s, n)
  {
    if todo == {} {
      assert s * todo == {};
      assert Ascending(s)[..|ids|] == ids;
    }
  }

  /** The positions recorded so far. */
  ghost predicate Recorded(info: map<Id, Info>, todo: set<Id>, nNew: int, index: map<Id, nat>) {
    && (forall x :: x in index <==> x in info && x !in todo)
    && (forall x :: x in index ==> index[x] == Rank(Referenced(info), x) && (nNew >= 0 ==> index[x] < nNew))
  }

  /** What reading the recorded positions yields. */
  function PlaceIn(index: map<Id, nat>, x: Id): nat {
    if x in index then index[x] else 0
  }

  lemma RecordedPlaces(info: map<Id, Info>, todo: set<Id>, ids: seq<Id>, nNew: int, index: map<Id, nat>)
    requires Visiting(Referenced(info), info.Keys, todo, ids, nNew) && (todo == {} || |ids| == nNew)
    requires Recorded(info, todo, nNew, index)
    ensures forall x :: PlaceIn(index, x) == PositionOf(info, nNew, x)
  {
    hide Visiting;
    forall x ensures PlaceIn(index, x) == PositionOf(info, nNew, x) {
      if x in info && x in todo { VisitedRank(Referenced(info), info.Keys, todo, ids, nNew, x); }
    }
  }

  /** The first loop: the first nNew entries with references, and where each visited id is among them. */
  method WriteNew(info: map<Id, Info>, nNew: int) returns (records: seq<Saved>, index: map<Id, nat>)
    ensures Saves(info, FirstOf(Referenced(info), nNew), records)
    ensures forall x :: PlaceIn(index, x) == PositionOf(info, nNew, x)
  {
    hide Visiting, FirstOf, Rank;
    records, index := [], map[];
    var todo := info.Keys;
    ghost var news: seq<Id> := [];
    VisitStart(Referenced(info), info.Keys, nNew);
    while todo != {} && |records| != nNew
      invariant Visiting(Referenced(info), info.Keys, todo, news, nNew) && todo <= info.Keys
      invariant nNew >= 0 ==> |news| <= nNew
      invariant Saves(info, news, records) && Recorded(info, todo, nNew, index)
      decreases todo
    {
      var id := Least(todo);
      VisitNext(Referenced(info), info.Keys, todo, news, nNew);
      VisitedWithin(Referenced(info), info.Keys, todo - {id},
                    if id in Referenced(info) then news + [id] else news, nNew);
      index := index[id := |records|];
      if info[id].refCount != 0 {
        records := records + [Save(info[id])];
        news := news + [id];
      }
      todo := todo - {id};
    }
    VisitEnd(Referenced(info), info.Keys, todo, news, nNew);
    RecordedPlaces(info, todo, news, nNew, index);
  }

  lemma VisitedWithin(s: set<Id>, keys: set<Id>, todo: set<Id>, ids: seq<Id>, n: int)
    requires Visiting(s, keys, todo, ids, n)
    ensures n >= 0 ==> |ids| <= n
  {
  }

  /** The second loop: the first nTried tried entries. */
  method WriteTried(info: map<Id, Info>, nTried: int) returns (records: seq<Saved>)
    ensures Saves(info, FirstOf(TriedIds(info), nTried), records)
  {
    hide Visiting, FirstOf;
    records := [];
    var todo := info.Keys;
    ghost var trieds: seq<Id> := [];
    VisitStart(TriedIds(info), info.Keys, nTried);
    while todo != {} && |records| != nTried
      invariant Visiting(TriedIds(info), info.Keys, todo, trieds, nTried) && todo <= info.Keys
      invariant Saves(info, trieds, records)
      decreases todo
    {
      var id := Least(todo);
      VisitNext(TriedIds(info), info.Keys, todo, trieds, nTried);
      if info[id].inTried {
        records := records + [Save(info[id])];
        trieds := trieds + [id];
      }
      todo := todo - {id};
    }
    VisitEnd(TriedIds(info), info.Keys, todo, trieds, nTried);
  }

  /** The positions of a bucket, in id order; an id without one gets 0. */
  method WriteBucket(bucket: set<Id>, index: map<Id, nat>) returns (list: seq<nat>)
    ensures |list| == |Ascending(bucket)|
    ensures forall k :: 0 <= k < |list| ==> list[k] == PlaceIn(index, Ascending(bucket)[k])
  {
    hide Visiting, FirstOf;
    list := [];
    var todo := bucket;
    ghost var ids: seq<Id> := [];
    VisitStart(bucket, bucket, -1);
    while todo != {}
      invariant Visiting(bucket, bucket, todo, ids, -1) && todo <= bucket
      invariant |list| == |ids| && forall k :: 0 <= k < |list| ==> list[k] == PlaceIn(index, ids[k])
      decreases todo
    {
      var x := Least(todo);
      VisitNext(bucket, bucket, todo, ids, -1);
      list := list + [PlaceIn(index, x)];
      ids := ids + [x];
      todo := todo - {x};
    }
    VisitEnd(bucket, bucket, todo, ids, -1);
    AllOf(bucket);
  }

  lemma AllOf(s: set<Id>)
    ensures FirstOf(s, -1) == Ascending(s)
  {
  }

  lemma SavesAppend(info: map<Id, Info>, a: seq<Id>, b: seq<Id>, r: seq<Saved>, s: seq<Saved>)
    requires Saves(info, a, r) && Saves(info, b, s)
    ensures Saves(info, a + b, r + s)
  {
  }

  lemma WriteFacts(h: Hashing, m: Man)
    requires Consistent(h, m, NoGap)
    ensures m.nNew == |NewIds(m.mapInfo, NoGap)| && m.nTried == |TriedIds(m.mapInfo)| && |m.vvNew| == NEW_BUCKET_COUNT
    ensures forall id :: id in m.mapInfo ==> (m.mapInfo[id].refCount != 0 <==> !m.mapInfo[id].inTried)
    ensures forall b :: 0 <= b < |m.vvNew| ==> m.vvNew[b] <= NewIds(m.mapInfo, NoGap)
  {
    forall id | id in m.mapInfo ensures m.mapInfo[id].refCount != 0 <==> !m.mapInfo[id].inTried {
      assert RefOK(m.mapInfo[id], |Holding(m.vvNew, id)|, id, NoGap);
    }
    forall b | 0 <= b < |m.vvNew| ensures m.vvNew[b] <= NewIds(m.mapInfo, NoGap) {
      forall x | x in m.vvNew[b] ensures x in NewIds(m.mapInfo, NoGap) {
        HeldUntried(m.mapInfo, m.vvNew, b, x, NoGap);
      }
    }
  }

  /** The writing branch of the serializer. */
  method Write(m: CAddrMan) returns (d: Disk)
    ensures Stored(m.State(), d)
  {
    hide Saves, FirstOf, PositionOf, Ascending;
    var recordsNew, index := WriteNew(m.mapInfo, m.nNew);
    var recordsTried := WriteTried(m.mapInfo, m.nTried);
    SavesAppend(m.mapInfo, News(m.State()), Trieds(m.State()), recordsNew, recordsTried);
    var buckets: seq<seq<nat>>, b := [], 0;
    while b < |m.vvNew|
      invariant 0 <= b == |buckets| <= |m.vvNew|
      invariant forall c :: 0 <= c < b ==> Placed(m.State(), Ascending(m.vvNew[c]), buckets[c])
    {
      var list := WriteBucket(m.vvNew[b], index);
      assert Placed(m.State(), Ascending(m.vvNew[b]), list);
      buckets := buckets + [list];
      b := b + 1;
    }
    d := Disk(m.key, m.nNew, m.nTried, NEW_BUCKET_COUNT, recordsNew + recordsTried, buckets);
  }

  // ---------------------------------------------------------------- writing a consistent manager

  lemma PlacesAre(m: Man, news: seq<Id>, bucket: set<Id>, list: seq<nat>)
    requires m.nNew == |Referenced(m.mapInfo)| && news == Ascending(Referenced(m.mapInfo))
    requires bucket <= Referenced(m.mapInfo) && Placed(m, Ascending(bucket), list)
    ensures Positions(news, bucket, list)
  {
    var ids, all := Ascending(bucket), Referenced(m.mapInfo);
    AscendingLists(bucket);
    AscendingLists(all);
    forall k | 0 <= k < |list| ensures list[k] < |news| && news[list[k]] == ids[k] && ids[k] in bucket {
      assert ids[k] in Elements(ids);
      RankAt(all, ids[k]);
    }
    forall x | x in bucket ensures exists k :: 0 <= k < |list| && list[k] < |news| && news[list[k]] == x {
      assert x in Elements(ids);
      var k :| 0 <= k < |ids| && ids[k] == x;
      assert news[list[k]] == x;
    }
  }

  lemma WholeCount(s: set<Id>, n: int)
    requires n == |s|
    ensures FirstOf(s, n) == Ascending(s) && Lists(FirstOf(s, n), s) && |FirstOf(s, n)| == n
  {
    AscendingLists(s);
  }

  /** Of a consistent manager every entry is written once, and every position names its member. */
  lemma StoredWritten(h: Hashing, m: Man, d: Disk)
    requires Consistent(h, m, NoGap) && Stored(m, d)
    ensures Written(m, d, News(m), Trieds(m))
  {
    hide Consistent, Saves, Positions, Lists, FirstOf, Ascending, Placed;
    WriteFacts(h, m);
    assert Referenced(m.mapInfo) == NewIds(m.mapInfo, NoGap);
    WholeCount(Referenced(m.mapInfo), m.nNew);
    WholeCount(TriedIds(m.mapInfo), m.nTried);
    forall b | 0 <= b < |m.vvNew| ensures Positions(News(m), m.vvNew[b], d.buckets[b]) {
      PlacesAre(m, News(m), m.vvNew[b], d.buckets[b]);
    }
  }
}
