/**
 What the operations of the address manager come to, in terms of entries, buckets and
 seconds, and how far the entries of one address range can spread.
 */
module AddrManLaws {
  import opened Options
  import opened Arithmetic
  import opened AddrManModel
  import opened AddrMan
  import opened Iteration

  // ---------------------------------------------------------------- entries that may be dropped

  /** Not tried in the last minute, and from the future, unseen for 30 days, or failing: 3 times, or 10 in a week. */
  lemma TerribleIff(i: Info, now: int)
    ensures IsTerrible(i, now) <==>
              && (i.lastTry == 0 || i.lastTry < now - 60)
              && (|| i.nTime > now + 600
                  || i.nTime == 0
                  || i.nTime < now - 2592000
                  || (i.attempts >= 3 && i.lastSuccess == 0)
                  || (i.attempts >= 10 && i.lastSuccess < now - 604800))
  {
  }

  // ---------------------------------------------------------------- learning of an address

  lemma HoldingInserted(vvNew: seq<set<Id>>, b: nat, id: Id, x: Id)
    requires b < |vvNew|
    ensures Holding(vvNew[b := vvNew[b] + {id}], x) == if x == id then Holding(vvNew, x) + {b} else Holding(vvNew, x)
  {
  }

  lemma HoldingDropped(vvNew: seq<set<Id>>, b: nat, id: Id, x: Id)
    requires b < |vvNew|
    ensures Holding(vvNew[b := vvNew[b] - {id}], x) == if x == id then Holding(vvNew, x) - {b} else Holding(vvNew, x)
  {
  }

  lemma UnrefBuckets(m: Man, b: nat, v: Id)
    requires v in m.mapInfo && b < |m.vvNew| && RandomOK(m.mapInfo, m.vRandom)
    ensures Unref(m, b, v).vvNew == m.vvNew[b := m.vvNew[b] - {v}]
    ensures forall x :: x in Unref(m, b, v).mapInfo <==> x in m.mapInfo && !(x == v && m.mapInfo[v].refCount == 1)
  {
    hide Holding;
  }

  /** The buckets after a reference: b has lost the victim and has id. */
  lemma ReferenceBuckets(m: Man, b: nat, id: Id, victim: Option<Id>, x: Id)
    requires b < |m.vvNew| && id in m.mapInfo && RandomOK(m.mapInfo, m.vRandom)
    requires victim.Some? ==> victim.value in m.mapInfo && victim.value != id
    ensures var m' := AddReference(m, b, id, victim);
            && Holding(m'.vvNew, x) == (if x == id then Holding(m.vvNew, x) + {b}
                                        else if Some(x) == victim then Holding(m.vvNew, x) - {b}
                                        else Holding(m.vvNew, x))
            && (x in m'.mapInfo <==> x in m.mapInfo && !(Some(x) == victim && m.mapInfo[x].refCount == 1))
  {
    hide Unref, Holding, RandomOK;
    var m1 := if victim.Some? then Unref(m, b, victim.value) else m;
    if victim.Some? {
      UnrefBuckets(m, b, victim.value);
      HoldingDropped(m.vvNew, b, victim.value, x);
    }
    HoldingInserted(m1.vvNew, b, id, x);
  }

  /** An entry is as before, except that bucket b let go of the lost one, which is gone with its last reference. */
  ghost predicate OtherKept(m: Man, m': Man, b: nat, lost: Option<Id>, x: Id)
    requires x in m.mapInfo
  {
    if x in m'.mapInfo then
      && m'.mapInfo[x] == m.mapInfo[x].(refCount := m'.mapInfo[x].refCount, randomPos := m'.mapInfo[x].randomPos)
      && Holding(m'.vvNew, x) == if Some(x) == lost then Holding(m.vvNew, x) - {b} else Holding(m.vvNew, x)
    else Some(x) == lost && Holding(m.vvNew, x) == {b}
  }

  ghost predicate OthersKept(m: Man, m': Man, id: Id, b: nat, lost: Option<Id>) {
    forall x :: x in m.mapInfo && x != id ==> OtherKept(m, m', b, lost, x)
  }

  lemma LastHeld(info: map<Id, Info>, vvNew: seq<set<Id>>, b: nat, x: Id)
    requires NewOK(info, vvNew, NoGap) && b < |vvNew| && x in vvNew[b] && x in info && info[x].refCount == 1
    ensures Holding(vvNew, x) == {b}
  {
    HeldUntried(info, vvNew, b, x, NoGap);
    assert RefOK(info[x], |Holding(vvNew, x)|, x, NoGap);
    assert b in Holding(vvNew, x);
    SameCard({b}, Holding(vvNew, x));
  }

  lemma ReferencedOther(m: Man, m2: Man, id: Id, b: nat, lost: Option<Id>, x: Id)
    requires NewOK(m.mapInfo, m.vvNew, NoGap) && b < |m.vvNew| && id !in m.vvNew[b] && id in m2.mapInfo
    requires m2.vvNew == m.vvNew && m2.mapInfo == m.mapInfo[id := m2.mapInfo[id]] && x in m.mapInfo && x != id
    requires RandomOK(m2.mapInfo, m2.vRandom) && AddrOK(m2.mapInfo, m2.mapAddr)
    requires lost.Some? ==> lost.value in m.vvNew[b] && lost.value in m.mapInfo
    ensures OtherKept(m, AddReference(m2, b, id, lost), b, lost, x)
  {
    hide AddReference, NewOK, AddrOK, RandomOK, Holding;
    AddReferenceLoses(m2, b, id, lost);
    ReferenceBuckets(m2, b, id, lost, x);
    if x !in AddReference(m2, b, id, lost).mapInfo { LastHeld(m.mapInfo, m.vvNew, b, x); }
  }

  lemma ReferencedOthers(m: Man, m2: Man, id: Id, b: nat, lost: Option<Id>)
    requires NewOK(m.mapInfo, m.vvNew, NoGap) && b < |m.vvNew| && id !in m.vvNew[b] && id in m2.mapInfo
    requires m2.vvNew == m.vvNew && m2.mapInfo == m.mapInfo[id := m2.mapInfo[id]]
    requires RandomOK(m2.mapInfo, m2.vRandom) && AddrOK(m2.mapInfo, m2.mapAddr)
    requires lost.Some? ==> lost.value in m.vvNew[b]
    ensures OthersKept(m, AddReference(m2, b, id, lost), id, b, lost)
    ensures Holding(AddReference(m2, b, id, lost).vvNew, id) == Holding(m.vvNew, id) + {b}
    ensures id in AddReference(m2, b, id, lost).mapInfo
    ensures KeepsHistory(m2.mapInfo[id], AddReference(m2, b, id, lost).mapInfo[id])
  {
    assert m.vvNew[b] <= m.mapInfo.Keys;
    hide AddReference, NewOK, AddrOK, RandomOK, Holding, OtherKept;
    AddReferenceLoses(m2, b, id, lost);
    ReferenceBuckets(m2, b, id, lost, id);
    forall x | x in m.mapInfo && x != id ensures OtherKept(m, AddReference(m2, b, id, lost), b, lost, x) {
      ReferencedOther(m, m2, id, b, lost, x);
    }
  }

  /** The penalty taken off a time, not below zero, in 32 bits. */
  ghost predicate Penalized(before: nat, penalty: int, after: nat) {
    after == (if before < penalty then 0 else before - penalty) % 0x1_0000_0000
  }

  /** The fields a created entry starts with. */
  lemma CreatedFields(m: Man, a: Address, source: NetAddr, penalty: int)
    ensures var m2 := SetRefs(Created(m, a, source, penalty), m.idCount, 1);
            && m.idCount in m2.mapInfo && m2.idCount == m.idCount + 1 && m2.vvNew == m.vvNew
            && m2.mapInfo == m.mapInfo[m.idCount := m2.mapInfo[m.idCount]]
            && var i := m2.mapInfo[m.idCount];
            && Penalized(a.nTime, penalty, i.nTime)
            && i == Info(a.svc, a.services, i.nTime, source, 0, 0, 0, 1, false, i.randomPos)
  {
  }

  lemma CreatedTables(h: Hashing, m: Man, a: Address, source: NetAddr, penalty: int)
    requires Consistent(h, m, NoGap) && a.svc.ip !in m.mapAddr
    ensures var m2 := SetRefs(Created(m, a, source, penalty), m.idCount, 1);
            m.idCount !in m.mapInfo && RandomOK(m2.mapInfo, m2.vRandom) && AddrOK(m2.mapInfo, m2.mapAddr)
  {
    CreatedOwed(h, m, a, source, penalty);
    hide SetRefs, Created, RandomOK, AddrOK, NewOK, TriedOK, CountOK;
  }

  lemma NobodyHolds(h: Hashing, m: Man, id: Id)
    requires Consistent(h, m, NoGap) && id !in m.mapInfo
    ensures Holding(m.vvNew, id) == {} && forall b :: 0 <= b < |m.vvNew| ==> id !in m.vvNew[b]
  {
    assert forall b :: 0 <= b < |m.vvNew| ==> m.vvNew[b] <= m.mapInfo.Keys;
  }

  lemma VictimInside(info: map<Id, Info>, bucket: set<Id>, now: int, rand: Random, victim: Id)
    requires IsVictim(info, bucket, now, rand, victim)
    ensures victim in bucket
  {
  }

  lemma ReferenceCount(m: Man, b: nat, id: Id, victim: Option<Id>)
    ensures AddReference(m, b, id, victim).idCount == m.idCount
  {
  }

  /** An unknown address: one entry more, with the time penalty and no history, in exactly the bucket of its source. */
  lemma UnknownEntry(h: Hashing, m: Man, m': Man, a: Address, source: NetAddr, penalty: int, now: int, rand: Random,
                     lost: Option<Id>)
    requires Consistent(h, m, NoGap) && a.svc.ip !in m.mapAddr
    requires AddedUnknown(h, m, m', a, source, penalty, now, rand, lost)
    ensures var id, b := m.idCount, NewBucket(h, m.key, a.svc, source);
            && id !in m.mapInfo && id in m'.mapInfo && m'.idCount == id + 1
            && var i := m'.mapInfo[id];
            && Penalized(a.nTime, penalty, i.nTime)
            && i == Info(a.svc, a.services, i.nTime, source, 0, 0, 0, i.refCount, false, i.randomPos)
            && Holding(m'.vvNew, id) == {b} && OthersKept(m, m', id, b, lost)
  {
    var id, b := m.idCount, NewBucket(h, m.key, a.svc, source);
    var m2 := SetRefs(Created(m, a, source, penalty), id, 1);
    assert NewOK(m.mapInfo, m.vvNew, NoGap);
    hide Consistent, SetRefs, Created, AddReference, NewOK, RandomOK, AddrOK, IsVictim, OthersKept, Holding, Penalized,
         NewBucket;
    CreatedFields(m, a, source, penalty);
    CreatedTables(h, m, a, source, penalty);
    NobodyHolds(h, m, id);
    if lost.Some? { VictimInside(m.mapInfo, m.vvNew[b], now, rand, lost.value); }
    ReferencedOthers(m, m2, id, b, lost);
    ReferenceCount(m2, b, id, lost);
  }

  /** A known entry's time is replaced if there is none, or it is an hour older, or a day for a report a day old. */
  ghost predicate TimeUpdated(i: Info, a: Address, now: int, penalty: int) {
    && a.nTime != 0
    && (i.nTime == 0 || i.nTime < a.nTime - (if now - a.nTime < 86400 then 3600 else 86400) - penalty)
  }

  /** One more reference is due: newer information, untried, fewer than 4, and a draw the rarer the more there are. */
  ghost predicate ReferenceDue(i: Info, nTime: nat, a: Address, rand: Random) {
    && a.nTime != 0 && (nTime == 0 || nTime < a.nTime)
    && !i.inTried && i.refCount < 4
    && rand(4) % (if i.refCount == 1 then 2 else if i.refCount == 2 then 4 else 8) == 0
  }

  lemma RefreshedMeaning(i: Info, a: Address, now: int, penalty: int)
    ensures var i1 := Refreshed(i, a, now, penalty);
            && (if TimeUpdated(i, a, now, penalty) then Penalized(a.nTime, penalty, i1.nTime) else i1.nTime == i.nTime)
            && i1 == i.(nTime := i1.nTime, services := i.services + a.services)
  {
  }

  lemma EarnsMeaning(i: Info, i1: Info, a: Address, rand: Random)
    requires i.inTried || 1 <= i.refCount <= 4
    requires i1 == i.(nTime := i1.nTime, services := i1.services)
    ensures Earns(i1, a, rand) <==> ReferenceDue(i, i1.nTime, a, rand)
  {
    hide Pow2;
    if !i.inTried { SmallPowers(i.refCount); }
  }

  lemma KnownCount(h: Hashing, m: Man, id: Id)
    requires Consistent(h, m, NoGap) && id in m.mapInfo
    ensures m.mapInfo[id].inTried || 1 <= m.mapInfo[id].refCount <= 4
    ensures |m.vvNew| == 256 && NewOK(m.mapInfo, m.vvNew, NoGap)
  {
    assert RefOK(m.mapInfo[id], |Holding(m.vvNew, id)|, id, NoGap);
  }

  /** A known entry after the update: its time by the rule, the services of both, and one more bucket if that is due. */
  ghost predicate KnownUpdated(m: Man, m': Man, id: Id, a: Address, penalty: int, now: int, rand: Random, b: nat)
    requires id in m.mapInfo
  {
    && id in m'.mapInfo && m'.idCount == m.idCount
    && var i, i' := m.mapInfo[id], m'.mapInfo[id];
    && (if TimeUpdated(i, a, now, penalty) then Penalized(a.nTime, penalty, i'.nTime) else i'.nTime == i.nTime)
    && i' == i.(nTime := i'.nTime, services := i.services + a.services,
                refCount := i'.refCount, randomPos := i'.randomPos)
    && Holding(m'.vvNew, id) == Holding(m.vvNew, id) + if ReferenceDue(i, i'.nTime, a, rand) then {b} else {}
  }

  lemma KnownSteady(m: Man, id: Id, a: Address, penalty: int, now: int, rand: Random, b: nat)
    requires id in m.mapInfo && b < |m.vvNew|
    requires id in m.vvNew[b] || !ReferenceDue(m.mapInfo[id], Refreshed(m.mapInfo[id], a, now, penalty).nTime, a, rand)
    ensures var m' := Touch(m, id, Refreshed(m.mapInfo[id], a, now, penalty));
            KnownUpdated(m, m', id, a, penalty, now, rand, b) && OthersKept(m, m', id, b, None)
  {
    RefreshedMeaning(m.mapInfo[id], a, now, penalty);
    hide Refreshed, TimeUpdated, Penalized, ReferenceDue;
    if id in m.vvNew[b] { assert b in Holding(m.vvNew, id); }
  }

  lemma TouchFields(m: Man, id: Id, i: Info)
    requires id in m.mapInfo
    ensures var m2 := SetRefs(Touch(m, id, i), id, i.refCount + 1);
            && m2 == m.(mapInfo := m2.mapInfo) && id in m2.mapInfo && m2.mapInfo == m.mapInfo[id := m2.mapInfo[id]]
            && m2.mapInfo[id] == i.(refCount := i.refCount + 1) && id in Touch(m, id, i).mapInfo
            && Touch(m, id, i).mapInfo[id] == i
  {
  }

  lemma KnownGains(h: Hashing, m: Man, id: Id, a: Address, penalty: int, now: int, rand: Random, b: nat,
                        lost: Option<Id>)
    requires Consistent(h, m, NoGap) && id in m.mapInfo && b < |m.vvNew| && id !in m.vvNew[b]
    requires ReferenceDue(m.mapInfo[id], Refreshed(m.mapInfo[id], a, now, penalty).nTime, a, rand)
    requires lost.Some? ==> lost.value in m.vvNew[b]
    ensures var i1 := Refreshed(m.mapInfo[id], a, now, penalty);
            var m' := AddReference(SetRefs(Touch(m, id, i1), id, i1.refCount + 1), b, id, lost);
            KnownUpdated(m, m', id, a, penalty, now, rand, b) && OthersKept(m, m', id, b, lost)
  {
    hide Consistent, Touch, SetRefs, Refreshed, AddReference, NewOK, RandomOK, AddrOK, OthersKept, Holding, Penalized,
         TimeUpdated, ReferenceDue;
    var i1 := Refreshed(m.mapInfo[id], a, now, penalty);
    var m2 := SetRefs(Touch(m, id, i1), id, i1.refCount + 1);
    KnownCount(h, m, id);
    RefreshedMeaning(m.mapInfo[id], a, now, penalty);
    TouchFields(m, id, i1);
    TouchedTables(h, m, m2, id);
    ReferencedOthers(m, m2, id, b, lost);
    ReferenceCount(m2, b, id, lost);
  }

  lemma NewBucketInRange(h: Hashing, key: seq<nat>, svc: Service, source: NetAddr)
    ensures NewBucket(h, key, svc, source) < 256
  {
  }

  /** A known address: time and services of its entry, and the bucket of the source if a reference is due. */
  lemma KnownEntry(h: Hashing, m: Man, m': Man, id: Id, a: Address, source: NetAddr, penalty: int, now: int,
                   rand: Random, lost: Option<Id>)
    requires Consistent(h, m, NoGap) && id in m.mapInfo && m.mapInfo[id].svc.ip == a.svc.ip
    requires AddedKnown(h, m, m', id, a, source, penalty, now, rand, lost)
    ensures var b := NewBucket(h, m.key, m.mapInfo[id].svc, source);
            KnownUpdated(m, m', id, a, penalty, now, rand, b) && OthersKept(m, m', id, b, lost)
  {
    hide Consistent, SetRefs, Refreshed, AddReference, NewOK, IsVictim, OthersKept, KnownUpdated, Penalized,
         TimeUpdated, ReferenceDue, NewBucket, Earns;
    var i, b := m.mapInfo[id], NewBucket(h, m.key, m.mapInfo[id].svc, source);
    var i1 := Refreshed(i, a, now, penalty);
    KnownCount(h, m, id);
    RefreshedMeaning(i, a, now, penalty);
    EarnsMeaning(i, i1, a, rand);
    NewBucketInRange(h, m.key, i.svc, source);
    if id !in m.vvNew[b] && Earns(i1, a, rand) {
      if lost.Some? { VictimInside(m.mapInfo, m.vvNew[b], now, rand, lost.value); }
      KnownGains(h, m, id, a, penalty, now, rand, b, lost);
    } else {
      KnownSteady(m, id, a, penalty, now, rand, b);
    }
  }

  lemma TouchedTables(h: Hashing, m: Man, m2: Man, id: Id)
    requires Consistent(h, m, NoGap) && id in m.mapInfo && m2.mapAddr == m.mapAddr && m2.vRandom == m.vRandom
    requires id in m2.mapInfo && m2.mapInfo == m.mapInfo[id := m2.mapInfo[id]]
    requires m2.mapInfo[id].svc == m.mapInfo[id].svc && m2.mapInfo[id].randomPos == m.mapInfo[id].randomPos
    ensures AddrOK(m2.mapInfo, m2.mapAddr) && RandomOK(m2.mapInfo, m2.vRandom)
  {
    AddrFrame(m.mapInfo, m2.mapInfo, m.mapAddr);
    TouchRandomOK(m.mapInfo, m.vRandom, id, m2.mapInfo[id]);
  }

  lemma SmallPowers(k: int)
    requires 0 <= k <= 4
    ensures Pow2(k) == if k == 0 then 1 else if k == 1 then 2 else if k == 2 then 4 else if k == 3 then 8 else 16
  {
    if k > 0 { SmallPowers(k - 1); }
  }

  // ---------------------------------------------------------------- which entry a full bucket gives up

  /** x is the entry of the bucket with the rank of one of four draws. */
  ghost predicate Drawn(bucket: set<Id>, rand: Random, x: Id) {
    && x in bucket
    && var below := |set y | y in bucket && y < x|;
    var n := |bucket|;
    below == rand(0) % n || below == rand(1) % n || below == rand(2) % n || below == rand(3) % n
  }

  /** The first entry worth dropping; if there is none, the first with the least time of the four drawn. */
  lemma VictimMeaning(info: map<Id, Info>, bucket: set<Id>, now: int, rand: Random, victim: Id)
    requires IsVictim(info, bucket, now, rand, victim)
    ensures bucket <= info.Keys && victim in bucket
    ensures if exists x :: x in bucket && IsTerrible(info[x], now) then
              IsTerrible(info[victim], now) && forall x :: x in bucket && x < victim ==> !IsTerrible(info[x], now)
            else
              && Drawn(bucket, rand, victim)
              && forall x: Id :: Drawn(bucket, rand, x) ==>
                   info[victim].nTime < info[x].nTime || (info[victim].nTime == info[x].nTime && victim <= x)
  {
    hide IsTerrible;
    var picks := Picks(rand, |bucket|);
    assert forall x: Id :: x in bucket ==> (set y | y in bucket && y < x) == Lower(bucket, x);
    assert forall x: Id :: Drawn(bucket, rand, x) <==> Picked(bucket, picks, x);
  }

  // ---------------------------------------------------------------- capacities and spread

  /** 256 new and 64 tried buckets of at most 64 entries; an address in at most 4 new ones. */
  lemma Capacities(h: Hashing, m: Man)
    requires Consistent(h, m, NoGap)
    ensures |m.vvNew| == 256 && forall b :: 0 <= b < 256 ==> |m.vvNew[b]| <= 64
    ensures |m.vvTried| == 64 && forall b :: 0 <= b < 64 ==> |m.vvTried[b]| <= 64
    ensures forall id :: id in m.mapInfo ==> |Holding(m.vvNew, id)| <= 4
  {
    forall id | id in m.mapInfo ensures |Holding(m.vvNew, id)| <= 4 {
      assert RefOK(m.mapInfo[id], |Holding(m.vvNew, id)|, id, NoGap);
    }
  }

  ghost function Image(f: nat -> nat, n: nat): set<nat> {
    set k | 0 <= k < n :: f(k)
  }

  lemma {:induction false} ImageCard(f: nat -> nat, n: nat)
    ensures |Image(f, n)| <= n
  {
    if n == 0 {
      assert Image(f, 0) == {};
    } else {
      ImageCard(f, n - 1);
      assert Image(f, n) == Image(f, n - 1) + {f(n - 1)};
    }
  }

  /** The new buckets that reports from one source group can reach. */
  ghost function NewBucketsOf(h: Hashing, key: seq<nat>, reports: set<(Service, NetAddr)>): set<nat> {
    set r | r in reports :: NewBucket(h, key, r.0, r.1)
  }

  /** However many addresses the sources of one group report, they reach at most 32 new buckets. */
  lemma NewSpread(h: Hashing, key: seq<nat>, reports: set<(Service, NetAddr)>, group: seq<nat>)
    requires forall r :: r in reports ==> h.groupOf(r.1) == group
    ensures |NewBucketsOf(h, key, reports)| <= 32
  {
    var f: nat -> nat := k => h.hash(key + group + [k]) % 256;
    forall b | b in NewBucketsOf(h, key, reports) ensures b in Image(f, 32) {
      var r :| r in reports && b == NewBucket(h, key, r.0, r.1);
      assert b == f(h.hash(key + h.groupOf(r.0.ip) + h.groupOf(r.1)) % 32);
    }
    ImageCard(f, 32);
    SubsetCard(NewBucketsOf(h, key, reports), Image(f, 32));
  }

  /** Only the groups of the address and of its source decide among them. */
  lemma NewBucketByGroups(h: Hashing, key: seq<nat>, a: Service, b: Service, source: NetAddr, other: NetAddr)
    requires h.groupOf(a.ip) == h.groupOf(b.ip) && h.groupOf(source) == h.groupOf(other)
    ensures NewBucket(h, key, a, source) == NewBucket(h, key, b, other)
  {
  }

  /** The tried entries of one address group. */
  ghost function TriedOf(h: Hashing, m: Man, group: seq<nat>): set<Id> {
    set id | id in m.mapInfo && m.mapInfo[id].inTried && h.groupOf(m.mapInfo[id].svc.ip) == group
  }

  /** The tried buckets that hold an entry of the group. */
  ghost function TriedBucketsOf(h: Hashing, m: Man, group: seq<nat>): set<nat> {
    set b: nat | b < |m.vvTried| && exists id :: id in m.vvTried[b] && id in TriedOf(h, m, group)
  }

  /** Of the four buckets of a group, the k-th. */
  ghost function GroupBucket(h: Hashing, key: seq<nat>, group: seq<nat>, k: nat): nat {
    h.hash(key + group + [k]) % 64
  }

  lemma TriedPlace(h: Hashing, m: Man, group: seq<nat>, id: Id)
    requires TriedOK(h, m.key, m.mapInfo, m.vvTried) && id in TriedOf(h, m, group)
    ensures exists k: nat :: k < 4 && id in m.vvTried[GroupBucket(h, m.key, group, k)]
  {
    var k := h.hash(m.key + h.keyOf(m.mapInfo[id].svc)) % 4;
    assert TriedBucket(h, m.key, m.mapInfo[id].svc) == GroupBucket(h, m.key, group, k);
  }

  lemma TriedBucketIn(h: Hashing, m: Man, group: seq<nat>, id: Id, b: nat)
    requires TriedOK(h, m.key, m.mapInfo, m.vvTried) && b < |m.vvTried| && id in m.vvTried[b]
    requires id in TriedOf(h, m, group)
    ensures exists k: nat :: k < 4 && b == GroupBucket(h, m.key, group, k)
  {
    var p :| 0 <= p < |m.vvTried[b]| && m.vvTried[b][p] == id;
    assert TriedAt(m.vvTried, b, p, id);
    assert b == GroupBucket(h, m.key, group, h.hash(m.key + h.keyOf(m.mapInfo[id].svc)) % 4);
  }

  lemma FourBuckets(a: seq<Id>, b: seq<Id>, c: seq<Id>, d: seq<Id>, all: set<Id>)
    requires |a| <= 64 && |b| <= 64 && |c| <= 64 && |d| <= 64
    requires forall x :: x in all ==> x in a || x in b || x in c || x in d
    ensures |all| <= 256
  {
    ElementsCard(a);
    ElementsCard(b);
    ElementsCard(c);
    ElementsCard(d);
    SubsetCard(all, Elements(a) + Elements(b) + Elements(c) + Elements(d));
  }

  lemma TriedEntries(h: Hashing, m: Man, group: seq<nat>)
    requires TriedOK(h, m.key, m.mapInfo, m.vvTried)
    ensures |TriedOf(h, m, group)| <= 256
  {
    hide TriedOf, GroupBucket;
    GroupInRange(h, m.key, group);
    var a, b := m.vvTried[GroupBucket(h, m.key, group, 0)], m.vvTried[GroupBucket(h, m.key, group, 1)];
    var c, d := m.vvTried[GroupBucket(h, m.key, group, 2)], m.vvTried[GroupBucket(h, m.key, group, 3)];
    forall id | id in TriedOf(h, m, group) ensures id in a || id in b || id in c || id in d {
      TriedPlace(h, m, group, id);
    }
    FourBuckets(a, b, c, d, TriedOf(h, m, group));
  }

  lemma GroupInRange(h: Hashing, key: seq<nat>, group: seq<nat>)
    ensures forall k: nat :: GroupBucket(h, key, group, k) < 64
  {
  }

  /** One address group fills at most 4 of the tried buckets, so it has at most 256 of the tried entries. */
  lemma TriedSpread(h: Hashing, m: Man, group: seq<nat>)
    requires Consistent(h, m, NoGap)
    ensures |TriedBucketsOf(h, m, group)| <= 4 && |TriedOf(h, m, group)| <= 256
  {
    assert TriedOK(h, m.key, m.mapInfo, m.vvTried);
    hide Consistent, TriedOK, TriedOf, GroupBucket;
    TriedEntries(h, m, group);
    var f: nat -> nat := k => GroupBucket(h, m.key, group, k);
    forall b | b in TriedBucketsOf(h, m, group) ensures b in Image(f, 4) {
      var id :| id in m.vvTried[b] && id in TriedOf(h, m, group);
      TriedBucketIn(h, m, group, id, b);
      var k: nat :| k < 4 && b == GroupBucket(h, m.key, group, k);
      assert f(k) in Image(f, 4);
    }
    ImageCard(f, 4);
    SubsetCard(TriedBucketsOf(h, m, group), Image(f, 4));
  }

  lemma {:induction false} ElementsCard<T>(s: seq<T>)
    ensures |Elements(s)| <= |s|
  {
    if s == [] {
      assert Elements(s) == {};
    } else {
      ElementsCard(s[1..]);
      assert Elements(s) == Elements(s[1..]) + {s[0]};
    }
  }

  /** Both bounds are met: with some hashing the ports of one address reach 4 buckets, the reports of a source 32. */
  lemma SpreadReached() returns (h: Hashing)
    ensures forall port: nat :: TriedBucket(h, [], Service(0, port)) == port % 4
    ensures forall ip: NetAddr :: ip > 0 ==> NewBucket(h, [], Service(ip, 0), 0) == ip % 32
  {
    h := Hashing(s => if s == [] then 0 else s[|s| - 1], (svc: Service) => [svc.port], a => if a == 0 then [] else [a]);
    forall ip: NetAddr | ip > 0 ensures NewBucket(h, [], Service(ip, 0), 0) == ip % 32 {
      assert [] + h.groupOf(ip) + h.groupOf(0) == [ip];
    }
  }

  /** The secret key chooses the buckets: with some hashing it alone decides them. */
  lemma KeyChooses() returns (h: Hashing)
    ensures forall k: nat, svc :: TriedBucket(h, [k], svc) == k % 64
    ensures forall k: nat, svc, source :: NewBucket(h, [k], svc, source) == k % 256
  {
    h := Hashing(s => if s == [] then 0 else s[0], svc => [], a => []);
  }
}
