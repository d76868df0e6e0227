/** The address manager object: its fields and operations, every random choice being a parameter. */
module AddrMan {
  import opened Options
  import opened AddrManModel
  import opened AddrManTried
  import opened Arithmetic
  import opened Iteration

  /** A source of random numbers: the i-th draw below n is rand(i) % n. */
  type Random = nat -> nat

  function Draw(rand: Random, i: nat, n: nat): (r: nat)
    requires n > 0
    ensures r < n
  {
    rand(i) % n
  }

  const HORIZON := 30 * 86400
  const RETRIES := 3
  const MAX_FAILURES := 10
  const MIN_FAIL := 7 * 86400

  predicate IsTerrible(i: Info, now: int) {
    if i.lastTry != 0 && i.lastTry >= now - 60 then false
    else if i.nTime > now + 10 * 60 then true
    else if i.nTime == 0 || now - i.nTime > HORIZON then true
    else if i.lastSuccess == 0 && i.attempts >= RETRIES then true
    else now - i.lastSuccess > MIN_FAIL && i.attempts >= MAX_FAILURES
  }

  /** Assignment of a 64-bit value to a 32-bit unsigned field. */
  function ToU32(x: int): nat {
    x % 0x1_0000_0000
  }

  function Max0(x: int): nat {
    if x < 0 then 0 else x
  }

  /** The members that come before id. */
  ghost function Lower(ids: set<Id>, id: Id): set<Id> {
    set x | x in ids && x < id
  }

  /** How many these are. */
  ghost function Rank(ids: set<Id>, id: Id): nat {
    |Lower(ids, id)|
  }

  ghost predicate Picked(bucket: set<Id>, picks: seq<nat>, id: Id) {
    id in bucket && Rank(bucket, id) in picks
  }

  ghost predicate OldestPicked(info: map<Id, Info>, bucket: set<Id>, picks: seq<nat>, id: Id)
    requires bucket <= info.Keys
  {
    && Picked(bucket, picks, id)
    && (forall x: Id :: Picked(bucket, picks, x) ==> info[id].nTime <= info[x].nTime)
    && (forall x: Id :: Picked(bucket, picks, x) && x < id ==> info[id].nTime < info[x].nTime)
  }

  /** What has been visited comes before what is still to visit. */
  ghost predicate VisitedInOrder(bucket: set<Id>, todo: set<Id>) {
    todo <= bucket && forall x, y :: x in bucket && x !in todo && y in todo ==> x < y
  }

  lemma VisitLeast(bucket: set<Id>, todo: set<Id>, id: Id)
    requires VisitedInOrder(bucket, todo) && IsLeast(todo, id)
    ensures VisitedInOrder(bucket, todo - {id})
    ensures Rank(bucket, id) == |bucket| - |todo|
  {
    assert Lower(bucket, id) == bucket - todo;
  }

  /** The first entry, in id order, that is bad enough to be dropped. */
  method FindTerrible(info: map<Id, Info>, bucket: set<Id>, now: int) returns (found: bool, id: Id)
    requires bucket <= info.Keys
    ensures found <==> exists x :: x in bucket && IsTerrible(info[x], now)
    ensures found ==> id in bucket && IsTerrible(info[id], now)
    ensures found ==> forall x :: x in bucket && x < id ==> !IsTerrible(info[x], now)
  {
    found, id := false, 0;
    var todo := bucket;
    while todo != {}
      invariant todo <= bucket
      invariant forall x :: x in bucket && x !in todo ==> !IsTerrible(info[x], now)
      decreases todo
    {
      id := Least(todo);
      if IsTerrible(info[id], now) {
        return true, id;
      }
      todo := todo - {id};
    }
  }

  /** The best of the picked members visited so far. */
  ghost predicate BestSoFar(info: map<Id, Info>, bucket: set<Id>, picks: seq<nat>, todo: set<Id>, chosen: Option<Id>)
    requires bucket <= info.Keys
  {
    && (chosen.Some? ==> Picked(bucket, picks, chosen.value))
    && (forall x: Id :: Picked(bucket, picks, x) && x !in todo ==>
          chosen.Some? && info[chosen.value].nTime <= info[x].nTime)
    && (forall x: Id :: Picked(bucket, picks, x) && x !in todo && chosen.Some? && x < chosen.value ==>
          info[chosen.value].nTime < info[x].nTime)
  }

  lemma BestStep(info: map<Id, Info>, bucket: set<Id>, picks: seq<nat>, todo: set<Id>, chosen: Option<Id>, id: Id)
    requires bucket <= info.Keys && BestSoFar(info, bucket, picks, todo, chosen)
    requires VisitedInOrder(bucket, todo) && IsLeast(todo, id) && (chosen.Some? ==> chosen.value !in todo)
    ensures !Picked(bucket, picks, id) ==> BestSoFar(info, bucket, picks, todo - {id}, chosen)
    ensures Picked(bucket, picks, id) && chosen.Some? && info[chosen.value].nTime <= info[id].nTime ==>
              BestSoFar(info, bucket, picks, todo - {id}, chosen)
    ensures Picked(bucket, picks, id) && (chosen.None? || info[id].nTime < info[chosen.value].nTime) ==>
              BestSoFar(info, bucket, picks, todo - {id}, Some(id))
  {
  }

  /** Among the members at four random ranks, one seen least recently. */
  method PickOldest(info: map<Id, Info>, bucket: set<Id>, picks: seq<nat>) returns (oldest: Id)
    requires bucket <= info.Keys
    requires |picks| == 4 && picks[0] < |bucket|
    ensures OldestPicked(info, bucket, picks, oldest)
  {
    hide Rank;
    var todo, nI := bucket, 0;
    var chosen: Option<Id> := None;
    while todo != {}
      invariant VisitedInOrder(bucket, todo) && nI == |bucket| - |todo|
      invariant BestSoFar(info, bucket, picks, todo, chosen)
      invariant chosen.None? ==> picks[0] >= nI
      invariant chosen.Some? ==> chosen.value !in todo
      decreases todo
    {
      var id := Least(todo);
      BestStep(info, bucket, picks, todo, chosen, id);
      VisitLeast(bucket, todo, id);
      assert Picked(bucket, picks, id) <==> nI == picks[0] || nI == picks[1] || nI == picks[2] || nI == picks[3];
      if nI == picks[0] || nI == picks[1] || nI == picks[2] || nI == picks[3] {
        if chosen.None? || info[id].nTime < info[chosen.value].nTime {
          chosen := Some(id);
        }
      }
      todo := todo - {id};
      nI := nI + 1;
    }
    oldest := chosen.value;
  }

  /** Four random ranks below n. */
  function Picks(rand: Random, n: nat): (picks: seq<nat>)
    requires n > 0
    ensures |picks| == 4 && picks[0] < n
  {
    [Draw(rand, 0, n), Draw(rand, 1, n), Draw(rand, 2, n), Draw(rand, 3, n)]
  }

  ghost predicate SomeTerrible(info: map<Id, Info>, bucket: set<Id>, now: int)
    requires bucket <= info.Keys
  {
    exists x :: x in bucket && IsTerrible(info[x], now)
  }

  /** The entry of a new bucket that has to go: the first terrible one, else the oldest of four random ones. */
  ghost predicate IsVictim(info: map<Id, Info>, bucket: set<Id>, now: int, rand: Random, victim: Id) {
    && bucket <= info.Keys && |bucket| > 0
    && if SomeTerrible(info, bucket, now) then
         && victim in bucket && IsTerrible(info[victim], now)
         && (forall x :: x in bucket && x < victim ==> !IsTerrible(info[x], now))
       else OldestPicked(info, bucket, Picks(rand, |bucket|), victim)
  }

  /** The choice looks at statistics only, so it does not depend on reference counts. */
  lemma VictimFrame(a: map<Id, Info>, b: map<Id, Info>, bucket: set<Id>, now: int, rand: Random, victim: Id)
    requires IsVictim(a, bucket, now, rand, victim) && bucket <= b.Keys
    requires forall x :: x in bucket ==> b[x] == a[x].(refCount := b[x].refCount)
    ensures IsVictim(b, bucket, now, rand, victim)
  {
    hide Picks, Rank;
    assert forall x :: x in bucket ==> IsTerrible(a[x], now) == IsTerrible(b[x], now);
  }

  /** Nor on an entry that is not in the bucket. */
  lemma OtherVictim(h: Hashing, m: Man, m1: Man, id: Id, b: nat, now: int, rand: Random, victim: Id)
    requires Consistent(h, m, NoGap) && b < |m.vvNew| && id !in m.vvNew[b] && id in m1.mapInfo
    requires m1.mapInfo == m.mapInfo[id := m1.mapInfo[id]] && IsVictim(m1.mapInfo, m.vvNew[b], now, rand, victim)
    ensures IsVictim(m.mapInfo, m.vvNew[b], now, rand, victim)
  {
    hide IsVictim;
    assert m.vvNew[b] <= m.mapInfo.Keys;
    VictimFrame(m1.mapInfo, m.mapInfo, m.vvNew[b], now, rand, victim);
  }

  method ChooseVictim(info: map<Id, Info>, bucket: set<Id>, now: int, rand: Random) returns (r: int, victim: Id)
    requires bucket <= info.Keys && |bucket| > 0
    ensures IsVictim(info, bucket, now, rand, victim)
    ensures r == if SomeTerrible(info, bucket, now) then 0 else 1
  {
    var found;
    found, victim := FindTerrible(info, bucket, now);
    if found {
      return 0, victim;
    }
    victim := PickOldest(info, bucket, Picks(rand, |bucket|));
    r := 1;
  }

  /** A bucket takes a reference, having let go of its victim if it had to. */
  function AddReference(m: Man, b: nat, id: Id, victim: Option<Id>): Man {
    InsertNew(if victim.Some? then Unref(m, b, victim.value) else m, b, id)
  }

  lemma AddReferenceConsistent(h: Hashing, m: Man, b: nat, id: Id, victim: Option<Id>)
    requires Consistent(h, m, Owed(id)) && b < NEW_BUCKET_COUNT && id !in m.vvNew[b]
    requires if victim.Some? then victim.value in m.vvNew[b] else |m.vvNew[b]| < NEW_BUCKET_SIZE
    ensures Consistent(h, AddReference(m, b, id, victim), NoGap)
  {
    assert |m.vvNew| == NEW_BUCKET_COUNT && |m.vvNew[b]| <= NEW_BUCKET_SIZE;
    hide Consistent, Unref;
    if victim.Some? {
      UnrefConsistent(h, m, b, victim.value, Owed(id));
      InsertNewConsistent(h, Unref(m, b, victim.value), b, id);
    } else {
      InsertNewConsistent(h, m, b, id);
    }
  }

  /** What a reference can cost others: at most the victim's address, and nothing in the tried table. */
  ghost predicate LosesOnly(m: Man, m': Man, lost: Option<Id>) {
    && m'.vvTried == m.vvTried && m'.nTried == m.nTried && m'.key == m.key
    && (forall a :: a in m'.mapAddr ==> a in m.mapAddr && m'.mapAddr[a] == m.mapAddr[a])
    && (forall a :: a in m.mapAddr && a !in m'.mapAddr ==> lost == Some(m.mapAddr[a]))
    && (forall x :: x in m'.mapInfo ==> x in m.mapInfo && KeepsHistory(m.mapInfo[x], m'.mapInfo[x]))
  }

  ghost predicate KeepsHistory(a: Info, b: Info) {
    b == a.(refCount := b.refCount, randomPos := b.randomPos)
  }

  lemma UnrefLastLoses(m: Man, b: nat, v: Id)
    requires AddrOK(m.mapInfo, m.mapAddr) && v in m.mapInfo
    ensures LosesOnly(m, UnrefLast(m, b, v), Some(v))
  {
  }

  lemma UnrefLoses(m: Man, b: nat, v: Id)
    requires AddrOK(m.mapInfo, m.mapAddr) && v in m.mapInfo
    ensures LosesOnly(m, Unref(m, b, v), Some(v))
  {
    UnrefLastLoses(m, b, v);
    hide UnrefLast;
  }

  lemma AddReferenceLoses(m: Man, b: nat, id: Id, victim: Option<Id>)
    requires AddrOK(m.mapInfo, m.mapAddr) && (victim.Some? ==> victim.value in m.mapInfo)
    ensures LosesOnly(m, AddReference(m, b, id, victim), victim)
  {
    if victim.Some? { UnrefLoses(m, b, victim.value); }
  }

  /** Add_'s update of a known entry's time and services. */
  function Refreshed(i: Info, a: Address, now: int, penalty: int): Info {
    var interval := if now - a.nTime < 24 * 60 * 60 then 60 * 60 else 24 * 60 * 60;
    var nTime := if a.nTime != 0 && (i.nTime == 0 || i.nTime < a.nTime - interval - penalty)
                 then ToU32(Max0(a.nTime - penalty)) else i.nTime;
    i.(nTime := nTime, services := i.services + a.services)
  }

  /** Whether a known entry earns one more reference: the more it has, the harder. */
  predicate Earns(i: Info, a: Address, rand: Random) {
    && a.nTime != 0 && (i.nTime == 0 || a.nTime > i.nTime)
    && !i.inTried && i.refCount != NEW_BUCKETS_PER_ADDRESS
    && (i.refCount <= 0 || Draw(rand, 4, Pow2(i.refCount)) == 0)
  }

  lemma EarnsFacts(i: Info, a: Address, rand: Random)
    ensures Earns(i, a, rand) ==> !i.inTried && i.refCount != NEW_BUCKETS_PER_ADDRESS
  {
  }

  lemma RefreshedSvc(i: Info, a: Address, now: int, penalty: int)
    ensures Refreshed(i, a, now, penalty).svc == i.svc
  {
  }

  /** Create, the penalty, and the count. */
  function Created(m: Man, a: Address, source: NetAddr, penalty: int): Man {
    var m1 := Create(m, a, source);
    Touch(m1, m.idCount, m1.mapInfo[m.idCount].(nTime := ToU32(Max0(a.nTime - penalty)))).(nNew := m.nNew + 1)
  }

  /** The address is known; only the lost id's address, and it only if new, is gone; tried stays as it was. */
  ghost predicate Learned(m: Man, m': Man, a: Address, lost: Option<Id>) {
    && a.svc.ip in m'.mapAddr
    && m'.vvTried == m.vvTried && m'.nTried == m.nTried && m'.key == m.key
    && (forall x :: x in m'.mapAddr && x != a.svc.ip ==> x in m.mapAddr && m'.mapAddr[x] == m.mapAddr[x])
    && (forall x :: x in m.mapAddr && x !in m'.mapAddr ==>
          lost == Some(m.mapAddr[x]) && m.mapAddr[x] in m.mapInfo && !m.mapInfo[m.mapAddr[x]].inTried)
    && (Timely(m) ==> Timely(m'))
  }

  /** Everything Add_ does to a known entry. */
  ghost predicate AddedKnown(h: Hashing, m: Man, m': Man, id: Id, a: Address, source: NetAddr, penalty: int, now: int,
                             rand: Random, lost: Option<Id>)
    requires id in m.mapInfo
  {
    var m1 := Touch(m, id, Refreshed(m.mapInfo[id], a, now, penalty));
    var b := NewBucket(h, m.key, m.mapInfo[id].svc, source);
    if b < |m.vvNew| && id !in m.vvNew[b] && Earns(m1.mapInfo[id], a, rand) then
      && (lost.Some? <==> |m.vvNew[b]| == NEW_BUCKET_SIZE)
      && (lost.Some? ==> IsVictim(m.mapInfo, m.vvNew[b], now, rand, lost.value))
      && m' == AddReference(SetRefs(m1, id, m1.mapInfo[id].refCount + 1), b, id, lost)
    else m' == m1 && lost.None?
  }

  /** Everything Add_ does for an unknown address. */
  ghost predicate AddedUnknown(h: Hashing, m: Man, m': Man, a: Address, source: NetAddr, penalty: int, now: int,
                               rand: Random, lost: Option<Id>) {
    var b := NewBucket(h, m.key, a.svc, source);
    && b < |m.vvNew| && (lost.Some? <==> |m.vvNew[b]| == NEW_BUCKET_SIZE)
    && (lost.Some? ==> IsVictim(m.mapInfo, m.vvNew[b], now, rand, lost.value))
    && m' == AddReference(SetRefs(Created(m, a, source, penalty), m.idCount, 1), b, m.idCount, lost)
  }

  lemma RefreshedConsistent(h: Hashing, m: Man, m1: Man, id: Id, a: Address, now: int, penalty: int)
    requires Consistent(h, m, NoGap) && id in m.mapInfo && m.mapInfo[id].svc.ip == a.svc.ip
    requires m1 == Touch(m, id, Refreshed(m.mapInfo[id], a, now, penalty))
    ensures Consistent(h, m1, NoGap)
    ensures Learned(m, m1, a, None)
  {
    TouchConsistent(h, m, id, Refreshed(m.mapInfo[id], a, now, penalty), NoGap);
    hide Consistent;
    RefreshLearned(m, id, a, now, penalty);
  }

  lemma RefreshLearned(m: Man, id: Id, a: Address, now: int, penalty: int)
    requires a.svc.ip in m.mapAddr && id in m.mapInfo
    ensures Learned(m, Touch(m, id, Refreshed(m.mapInfo[id], a, now, penalty)), a, None)
  {
  }

  /** Losing a victim after having learned the address is still having learned it. */
  lemma LearnedThenLoses(m: Man, m1: Man, m2: Man, a: Address, lost: Option<Id>)
    requires Learned(m, m1, a, None) && LosesOnly(m1, m2, lost)
    requires a.svc.ip in m2.mapAddr
    requires forall x :: x in m.mapAddr && Some(m.mapAddr[x]) == lost ==>
               m.mapAddr[x] in m.mapInfo && !m.mapInfo[m.mapAddr[x]].inTried
    ensures Learned(m, m2, a, lost)
  {
  }

  lemma KnownReferenced(h: Hashing, m: Man, m1: Man, b: nat, id: Id, a: Address, victim: Option<Id>)
    requires Consistent(h, m, NoGap) && Consistent(h, m1, NoGap) && Learned(m, m1, a, None)
    requires m1.vvNew == m.vvNew && m1.mapAddr == m.mapAddr
    requires id in m1.mapInfo && m1.mapInfo[id].svc.ip == a.svc.ip
    requires !m1.mapInfo[id].inTried && m1.mapInfo[id].refCount != NEW_BUCKETS_PER_ADDRESS
    requires b < NEW_BUCKET_COUNT && id !in m1.vvNew[b]
    requires if victim.Some? then victim.value in m1.vvNew[b] else |m1.vvNew[b]| < NEW_BUCKET_SIZE
    ensures var m3 := AddReference(SetRefs(m1, id, m1.mapInfo[id].refCount + 1), b, id, victim);
            Consistent(h, m3, NoGap) && Learned(m, m3, a, victim)
  {
    var m2 := SetRefs(m1, id, m1.mapInfo[id].refCount + 1);
    assert RefOK(m1.mapInfo[id], |Holding(m1.vvNew, id)|, id, NoGap);
    AddRefConsistent(h, m1, id);
    AddReferenceConsistent(h, m2, b, id, victim);
    KnownLearned(h, m, m1, b, id, a, victim);
  }

  lemma LearnedSetRefs(m: Man, m1: Man, id: Id, refs: int, a: Address)
    requires Learned(m, m1, a, None)
    ensures Learned(m, SetRefs(m1, id, refs), a, None)
  {
  }

  lemma KnownLearned(h: Hashing, m: Man, m1: Man, b: nat, id: Id, a: Address, victim: Option<Id>)
    requires AddrOK(m.mapInfo, m.mapAddr) && NewOK(m.mapInfo, m.vvNew, NoGap) && Learned(m, m1, a, None)
    requires m1.vvNew == m.vvNew && m1.mapAddr == m.mapAddr && AddrOK(m1.mapInfo, m1.mapAddr)
    requires id in m1.mapInfo && m1.mapInfo[id].svc.ip == a.svc.ip
    requires b < NEW_BUCKET_COUNT && id !in m1.vvNew[b]
    requires victim.Some? ==> victim.value in m1.vvNew[b] && victim.value in m1.mapInfo
    ensures Learned(m, AddReference(SetRefs(m1, id, m1.mapInfo[id].refCount + 1), b, id, victim), a, victim)
  {
    hide Learned, AddReference;
    var m2 := SetRefs(m1, id, m1.mapInfo[id].refCount + 1);
    AddrFrame(m1.mapInfo, m2.mapInfo, m1.mapAddr);
    LearnedSetRefs(m, m1, id, m1.mapInfo[id].refCount + 1, a);
    AddReferenceLoses(m2, b, id, victim);
    if victim.Some? { HeldUntried(m.mapInfo, m.vvNew, b, victim.value, NoGap); }
    assert a.svc.ip in m1.mapAddr && m1.mapAddr[a.svc.ip] == id;
    LearnedThenLoses(m, m2, AddReference(m2, b, id, victim), a, victim);
  }

  lemma HeldUntried(info: map<Id, Info>, vvNew: seq<set<Id>>, b: nat, v: Id, gap: Gap)
    requires NewOK(info, vvNew, gap) && b < |vvNew| && v in vvNew[b]
    ensures v in info && !info[v].inTried
  {
    assert vvNew[b] <= info.Keys;
    assert b in Holding(vvNew, v);
    assert RefOK(info[v], |Holding(vvNew, v)|, v, gap);
  }

  lemma CreatedOwed(h: Hashing, m: Man, a: Address, source: NetAddr, penalty: int)
    requires Consistent(h, m, NoGap) && a.svc.ip !in m.mapAddr
    ensures Consistent(h, SetRefs(Created(m, a, source, penalty), m.idCount, 1), Owed(m.idCount))
  {
    hide Consistent;
    var id, m1 := m.idCount, Create(m, a, source);
    CreateConsistent(h, m, a, source);
    var i := m1.mapInfo[id].(nTime := ToU32(Max0(a.nTime - penalty)));
    TouchConsistent(h, m1, id, i, Limbo(id));
    CountNewConsistent(h, Touch(m1, id, i), id);
    assert SetRefs(Created(m, a, source, penalty), id, 1) == CountNew(Touch(m1, id, i), id);
  }

  /** What the tables look like to the reference a created entry is about to get. */
  lemma CreatedShape(h: Hashing, m: Man, a: Address, source: NetAddr, penalty: int)
    requires Consistent(h, m, NoGap) && a.svc.ip !in m.mapAddr
    ensures var m1 := Created(m, a, source, penalty);
            && m.idCount in m1.mapInfo && m1.mapInfo[m.idCount].refCount == 0 && m1.vvNew == m.vvNew
            && m1.mapInfo[m.idCount].svc == a.svc && m1.key == m.key
            && RandomOK(m1.mapInfo, m1.vRandom) && |m1.vvNew| == NEW_BUCKET_COUNT
            && (forall b :: 0 <= b < |m1.vvNew| ==> m1.vvNew[b] <= m1.mapInfo.Keys && |m1.vvNew[b]| <= NEW_BUCKET_SIZE)
            && (forall b :: 0 <= b < |m1.vvNew| ==> m.idCount !in m1.vvNew[b])
  {
    CreateRandomAddr(m, a, source);
    var m0, m1 := Create(m, a, source), Created(m, a, source, penalty);
    TouchRandomOK(m0.mapInfo, m0.vRandom, m.idCount, m1.mapInfo[m.idCount]);
    forall b | 0 <= b < |m.vvNew| ensures m.vvNew[b] <= m1.mapInfo.Keys && m.idCount !in m.vvNew[b] {
      assert m.vvNew[b] <= m.mapInfo.Keys;
    }
  }

  lemma CreatedAdds(m: Man, a: Address, source: NetAddr, penalty: int)
    ensures var m1 := Created(m, a, source, penalty);
            m.idCount in m1.mapInfo && m1.mapInfo == m.mapInfo[m.idCount := m1.mapInfo[m.idCount]]
  {
  }

  /** What a reference relies on in a consistent manager. */
  lemma BucketShape(h: Hashing, m: Man)
    requires Consistent(h, m, NoGap)
    ensures RandomOK(m.mapInfo, m.vRandom) && |m.vvNew| == NEW_BUCKET_COUNT
    ensures forall b :: 0 <= b < |m.vvNew| ==> m.vvNew[b] <= m.mapInfo.Keys && |m.vvNew[b]| <= NEW_BUCKET_SIZE
  {
  }

  lemma UnknownReferenced(h: Hashing, m: Man, m1: Man, a: Address, source: NetAddr, penalty: int, b: nat,
                          victim: Option<Id>)
    requires Consistent(h, m, NoGap) && a.svc.ip !in m.mapAddr && b < NEW_BUCKET_COUNT
    requires m1 == Created(m, a, source, penalty) && m.idCount in m1.mapInfo
    requires if victim.Some? then victim.value in m.vvNew[b] else |m.vvNew[b]| < NEW_BUCKET_SIZE
    ensures var m3 := AddReference(SetRefs(m1, m.idCount, m1.mapInfo[m.idCount].refCount + 1), b, m.idCount, victim);
            Consistent(h, m3, NoGap) && Learned(m, m3, a, victim)
  {
    hide Learned, AddReference, Created;
    CreatedShape(h, m, a, source, penalty);
    assert m1.mapInfo[m.idCount].refCount + 1 == 1;
    CreatedOwed(h, m, a, source, penalty);
    AddReferenceConsistent(h, SetRefs(m1, m.idCount, 1), b, m.idCount, victim);
    UnknownLearned(h, m, a, source, penalty, b, victim);
  }

  lemma UnknownLearned(h: Hashing, m: Man, a: Address, source: NetAddr, penalty: int, b: nat, victim: Option<Id>)
    requires Consistent(h, m, NoGap) && a.svc.ip !in m.mapAddr && b < NEW_BUCKET_COUNT
    requires victim.Some? ==> victim.value in m.vvNew[b]
    ensures Learned(m, AddReference(SetRefs(Created(m, a, source, penalty), m.idCount, 1), b, m.idCount, victim),
                    a, victim)
  {
    var m2 := SetRefs(Created(m, a, source, penalty), m.idCount, 1);
    CreatedOwed(h, m, a, source, penalty);
    CreatedLearned(m, a, source, penalty);
    if victim.Some? { HeldUntried(m.mapInfo, m.vvNew, b, victim.value, NoGap); }
    AddReferenceLoses(m2, b, m.idCount, victim);
    LearnedThenLoses(m, m2, AddReference(m2, b, m.idCount, victim), a, victim);
  }

  lemma CreatedLearned(m: Man, a: Address, source: NetAddr, penalty: int)
    requires m.idCount !in m.mapInfo && a.svc.ip !in m.mapAddr
    ensures Learned(m, SetRefs(Created(m, a, source, penalty), m.idCount, 1), a, None)
  {
  }

  /** The new buckets from number i on that hold id. */
  ghost function HoldingFrom(vvNew: seq<set<Id>>, id: Id, i: nat): set<nat> {
    set b: nat | i <= b < |vvNew| && id in vvNew[b]
  }

  lemma HoldingFromStart(vvNew: seq<set<Id>>, id: Id)
    ensures HoldingFrom(vvNew, id, 0) == Holding(vvNew, id)
  {
  }

  lemma HoldingFromStep(vvNew: seq<set<Id>>, id: Id, i: nat)
    requires i < |vvNew|
    ensures |HoldingFrom(vvNew, id, i)| == |HoldingFrom(vvNew, id, i + 1)| + if id in vvNew[i] then 1 else 0
  {
    var a, b := HoldingFrom(vvNew, id, i), HoldingFrom(vvNew, id, i + 1);
    assert a == if id in vvNew[i] then b + {i} else b;
  }

  // ---------------------------------------------------------------- selecting a tried entry to evict

  /** A shuffled bucket, the oldest entry met so far, and where it was before its swap. */
  datatype Selection = Selection(v: seq<Id>, oldest: Option<Id>, pos: nat)

  function SuccessOf(info: map<Id, Info>, id: Id): int {
    if id in info then info[id].lastSuccess else 0
  }

  /** How many entries are inspected. */
  function Inspected(v: seq<Id>): nat {
    if |v| < 4 then |v| else 4
  }

  /** One round: the entry drawn comes to place i, and counts if it is older than the oldest so far. */
  function SelectRound(info: map<Id, Info>, sel: Selection, nPos: nat, i: nat): (sel': Selection)
    requires i < |sel.v| && nPos < |sel.v|
    ensures |sel'.v| == |sel.v| && (sel.pos < |sel.v| ==> sel'.pos < |sel.v|)
  {
    var temp := sel.v[nPos];
    var better := sel.oldest.None? || SuccessOf(info, temp) < SuccessOf(info, sel.oldest.value);
    Selection(SwapSeq(sel.v, i, nPos), if better then Some(temp) else sel.oldest, if better then nPos else sel.pos)
  }

  /** The first k rounds of SelectTried. */
  function Select(info: map<Id, Info>, v: seq<Id>, rand: Random, k: nat): (sel: Selection)
    requires k <= |v|
    ensures |sel.v| == |v| && (v != [] ==> sel.pos < |v|)
  {
    if k == 0 then Selection(v, None, 0)
    else SelectRound(info, Select(info, v, rand, k - 1), Draw(rand, k - 1, |v| - (k - 1)) + k - 1, k - 1)
  }

  lemma SelectNone(info: map<Id, Info>, v: seq<Id>, rand: Random)
    ensures Select(info, v, rand, 0) == Selection(v, None, 0)
  {
  }

  lemma SelectNext(info: map<Id, Info>, v: seq<Id>, rand: Random, i: nat)
    requires i < |v|
    ensures Select(info, v, rand, i + 1)
         == SelectRound(info, Select(info, v, rand, i), Draw(rand, i, |v| - i) + i, i)
  {
  }

  lemma SwapDistinct(v: seq<Id>, i: nat, j: nat)
    requires Distinct(v) && i < |v| && j < |v|
    ensures Distinct(SwapSeq(v, i, j)) && multiset(SwapSeq(v, i, j)) == multiset(v)
  {
  }

  /** The oldest of the first k entries is at place win, the first one of its age. */
  ghost predicate OldestAt(info: map<Id, Info>, sel: Selection, k: nat, win: nat) {
    && win < k <= |sel.v| && sel.oldest == Some(sel.v[win])
    && (forall i :: 0 <= i < k ==> SuccessOf(info, sel.v[win]) <= SuccessOf(info, sel.v[i]))
    && (forall i :: 0 <= i < win ==> SuccessOf(info, sel.v[win]) < SuccessOf(info, sel.v[i]))
  }

  lemma OldestRound(info: map<Id, Info>, sel: Selection, nPos: nat, i: nat, win: nat) returns (win': nat)
    requires i <= nPos < |sel.v| && (if i == 0 then sel.oldest.None? else OldestAt(info, sel, i, win))
    ensures var sel' := SelectRound(info, sel, nPos, i);
            && OldestAt(info, sel', i + 1, win')
            && (if win' == i then sel'.pos == nPos else win' == win && i > 0 && sel'.pos == sel.pos)
  {
    var sel' := SelectRound(info, sel, nPos, i);
    assert sel'.v[i] == sel.v[nPos] && forall x :: 0 <= x < i ==> sel'.v[x] == sel.v[x];
    win' := if i == 0 || SuccessOf(info, sel.v[nPos]) < SuccessOf(info, sel.oldest.value) then i else win;
  }

  /** After k rounds the oldest of the first k entries is at the place of the round that met it. */
  lemma {:induction false} SelectOldest(info: map<Id, Info>, v: seq<Id>, rand: Random, k: nat) returns (win: nat)
    requires 0 < k <= |v| && Distinct(v)
    ensures var sel := Select(info, v, rand, k);
            && Distinct(sel.v) && multiset(sel.v) == multiset(v) && OldestAt(info, sel, k, win)
            && sel.pos == win + Draw(rand, win, |v| - win)
  {
    hide SelectRound, OldestAt, Distinct, SwapSeq, Draw;
    var i := k - 1;
    var nPos := Draw(rand, i, |v| - i) + i;
    var before := Select(info, v, rand, i);
    win := 0;
    if i > 0 { win := SelectOldest(info, v, rand, i); }
    SwapDistinct(before.v, i, nPos);
    RoundSwaps(info, before, nPos, i);
    win := OldestRound(info, before, nPos, i, win);
  }

  lemma RoundSwaps(info: map<Id, Info>, sel: Selection, nPos: nat, i: nat)
    requires i < |sel.v| && nPos < |sel.v|
    ensures SelectRound(info, sel, nPos, i).v == SwapSeq(sel.v, i, nPos)
  {
  }

  /** The entry selected is the first oldest one inspected exactly if its round drew its own place. */
  lemma SelectedIsOldestIff(info: map<Id, Info>, v: seq<Id>, rand: Random) returns (win: nat)
    requires v != [] && Distinct(v)
    ensures var sel := Select(info, v, rand, Inspected(v));
            && OldestAt(info, sel, Inspected(v), win)
            && (sel.v[sel.pos] == sel.v[win] <==> Draw(rand, win, |v| - win) == 0)
  {
    hide Select, SuccessOf, Draw;
    win := SelectOldest(info, v, rand, Inspected(v));
  }

  /** A round that draws its own place and meets nothing older changes nothing. */
  lemma IdleRound(info: map<Id, Info>, sel: Selection, i: nat)
    requires i < |sel.v| && sel.oldest.Some?
    requires SuccessOf(info, sel.oldest.value) <= SuccessOf(info, sel.v[i])
    ensures SelectRound(info, sel, i, i) == sel
  {
  }

  /** A full bucket with one older entry, and draws that swap it in the first round: a younger one is selected. */
  lemma SelectsTheYounger() returns (info: map<Id, Info>, v: seq<Id>, rand: Random)
    ensures |v| == TRIED_BUCKET_SIZE && Distinct(v) && forall i :: 0 <= i < |v| ==> v[i] in info
    ensures var sel := Select(info, v, rand, Inspected(v));
            && sel.v[sel.pos] == v[0] && v[1] in sel.v[..Inspected(v)]
            && info[v[1]].lastSuccess < info[v[0]].lastSuccess
  {
    hide Select;
    var entry := Info(Service(1, 1), {}, 0, 0, 20, 0, 0, 0, true, 0);
    v, rand := seq(64, i => i), n => if n == 0 then 1 else 0;
    info := map id: Id | id in v :: if id == 1 then entry.(lastSuccess := 10) else entry;
    var swapped := Selection(v[0 := 1][1 := 0], Some(1), 1);
    YoungerRounds(info, v, rand, swapped);
    assert swapped.v[..4][0] == 1;
  }

  lemma YoungerRounds(info: map<Id, Info>, v: seq<Id>, rand: Random, swapped: Selection)
    requires |v| == 64 && v[0] == 0 && v[1] == 1 && swapped == Selection(v[0 := 1][1 := 0], Some(1), 1)
    requires rand(0) == 1 && rand(1) == 0 && rand(2) == 0 && rand(3) == 0
    requires forall i :: 0 <= i < |v| ==> SuccessOf(info, 1) <= SuccessOf(info, v[i])
    ensures Select(info, v, rand, 4) == swapped
  {
    hide SelectRound, Draw, SuccessOf, Select;
    YoungerDraws(rand);
    SelectNone(info, v, rand);
    FirstRound(info, v, swapped);
    SelectNext(info, v, rand, 0);
    assert swapped.v[1] == v[0] && swapped.v[2] == v[2] && swapped.v[3] == v[3];
    IdleRound(info, swapped, 1);
    SelectNext(info, v, rand, 1);
    IdleRound(info, swapped, 2);
    SelectNext(info, v, rand, 2);
    IdleRound(info, swapped, 3);
    SelectNext(info, v, rand, 3);
  }

  lemma YoungerDraws(rand: Random)
    requires rand(0) == 1 && rand(1) == 0 && rand(2) == 0 && rand(3) == 0
    ensures Draw(rand, 0, 64) == 1 && Draw(rand, 1, 63) == 0 && Draw(rand, 2, 62) == 0 && Draw(rand, 3, 61) == 0
  {
  }

  lemma FirstRound(info: map<Id, Info>, v: seq<Id>, swapped: Selection)
    requires |v| > 1 && v[0] == 0 && v[1] == 1 && swapped == Selection(v[0 := 1][1 := 0], Some(1), 1)
    ensures SelectRound(info, Selection(v, None, 0), 1, 0) == swapped
  {
  }

  lemma {:induction false} SelectFrame(a: map<Id, Info>, b: map<Id, Info>, v: seq<Id>, rand: Random, k: nat)
    requires k <= |v| && forall x :: SuccessOf(a, x) == SuccessOf(b, x)
    ensures Select(a, v, rand, k) == Select(b, v, rand, k)
  {
    hide Draw, SuccessOf, SwapSeq;
    if k > 0 { SelectFrame(a, b, v, rand, k - 1); }
  }

  /** An evicted entry goes back to its own new bucket, or if that is full, not counting id, to the origin of id. */
  ghost predicate GoesBack(h: Hashing, m: Man, id: Id, out: Info, origin: nat, nb: nat) {
    var own := NewBucket(h, m.key, out.svc, out.source);
    own < |m.vvNew| && nb == if |m.vvNew[own] - {id}| < 64 then own else origin
  }

  /** id is tried, an evicted entry is new again with one reference, all other entries are as before. */
  ghost predicate EntriesPromoted(m: Man, m': Man, id: Id, out: Option<Id>) {
    && m'.mapAddr == m.mapAddr && m'.vRandom == m.vRandom && m'.idCount == m.idCount && m'.key == m.key
    && m'.mapInfo.Keys == m.mapInfo.Keys && id in m.mapInfo
    && m'.mapInfo[id] == m.mapInfo[id].(inTried := true, refCount := 0)
    && (forall x :: x in m.mapInfo && x != id && Some(x) != out ==> m'.mapInfo[x] == m.mapInfo[x])
    && (out.Some? ==>
          && out.value in m.mapInfo && out.value != id && m.mapInfo[out.value].inTried
          && m'.mapInfo[out.value] == m.mapInfo[out.value].(inTried := false, refCount := 1))
  }

  /** Tried bucket b had room. */
  ghost predicate Appended(m: Man, m': Man, id: Id, b: nat) {
    && b < |m.vvTried| && |m.vvTried[b]| < 64
    && m'.vvTried == m.vvTried[b := m.vvTried[b] + [id]]
    && m'.nTried == m.nTried + 1 && m'.nNew == m.nNew - 1 && m'.vvNew == RemoveEverywhere(m.vvNew, id)
  }

  /** Tried bucket b was full: id takes the place of the selected entry, which goes to new bucket nb. */
  ghost predicate Swapped(m: Man, m': Man, id: Id, b: nat, rand: Random, out: Id, nb: nat) {
    && b < |m.vvTried| && |m.vvTried[b]| >= 64
    && var sel := Select(m.mapInfo, m.vvTried[b], rand, Inspected(m.vvTried[b]));
    && sel.pos < |sel.v| && out == sel.v[sel.pos]
    && m'.vvTried == m.vvTried[b := sel.v[sel.pos := id]]
    && nb < |m.vvNew| && |m.vvNew[nb] - {id}| < 64
    && m'.vvNew == RemoveEverywhere(m.vvNew, id)[nb := m.vvNew[nb] - {id} + {out}]
    && m'.nTried == m.nTried && m'.nNew == m.nNew
  }

  /** Everything MakeTried does: id is tried; from a full bucket the selected entry goes back to one new bucket. */
  ghost predicate Promoted(h: Hashing, m: Man, m': Man, id: Id, origin: nat, rand: Random, out: Option<Id>, nb: nat) {
    && EntriesPromoted(m, m', id, out)
    && var b := TriedBucket(h, m.key, m.mapInfo[id].svc);
    if out.None? then Appended(m, m', id, b)
    else
      && Swapped(m, m', id, b, rand, out.value, nb)
      && TriedBucket(h, m.key, m.mapInfo[out.value].svc) == b
      && GoesBack(h, m, id, m.mapInfo[out.value], origin, nb)
  }

  /** Right after the withdrawal: what the rest of MakeTried relies on. */
  lemma WithdrawShape(h: Hashing, m: Man, id: Id, origin: nat)
    requires Consistent(h, m, NoGap) && id in m.mapInfo && !m.mapInfo[id].inTried
    requires origin < |m.vvNew| && id in m.vvNew[origin]
    ensures m.mapInfo[id].refCount == |Holding(m.vvNew, id)|
    ensures var m1 := Withdraw(m, id);
            && Consistent(h, m1, Limbo(id)) && TriedOK(h, m1.key, m1.mapInfo, m1.vvTried)
            && origin < |m1.vvNew| == NEW_BUCKET_COUNT && |m1.vvNew[origin]| < NEW_BUCKET_SIZE
            && m1.vvTried == m.vvTried && |m.vvTried| == TRIED_BUCKET_COUNT && m1.key == m.key
            && m1.mapInfo == m.mapInfo[id := m.mapInfo[id].(refCount := 0)]
            && (forall c :: 0 <= c < |m1.vvNew| ==> id !in m1.vvNew[c])
  {
    hide Consistent, TriedOK;
    HeldCount(h, m, id);
    WithdrawConsistent(h, m, id);
    LimboTried(h, Withdraw(m, id), Limbo(id));
    SubsetSmaller(m.vvNew[origin], id);
  }

  lemma HeldCount(h: Hashing, m: Man, id: Id)
    requires Consistent(h, m, NoGap) && id in m.mapInfo && !m.mapInfo[id].inTried
    ensures m.mapInfo[id].refCount == |Holding(m.vvNew, id)|
    ensures |m.vvNew| == NEW_BUCKET_COUNT && |m.vvTried| == TRIED_BUCKET_COUNT
    ensures forall b :: 0 <= b < |m.vvNew| ==> |m.vvNew[b]| <= NEW_BUCKET_SIZE
  {
    assert RefOK(m.mapInfo[id], |Holding(m.vvNew, id)|, id, NoGap);
  }

  lemma LimboTried(h: Hashing, m: Man, gap: Gap)
    requires Consistent(h, m, gap)
    ensures TriedOK(h, m.key, m.mapInfo, m.vvTried)
  {
  }

  lemma PlacePromotes(h: Hashing, m: Man, m1: Man, m': Man, id: Id, origin: nat, rand: Random, b: nat)
    requires id in m.mapInfo && !m.mapInfo[id].inTried && m1 == Withdraw(m, id) && Consistent(h, m1, Limbo(id))
    requires m1.mapInfo == m.mapInfo[id := m.mapInfo[id].(refCount := 0)]
    requires b == TriedBucket(h, m1.key, m1.mapInfo[id].svc) && b < |m1.vvTried| && |m1.vvTried[b]| < TRIED_BUCKET_SIZE
    requires m' == m1.(vvTried := m1.vvTried[b := m1.vvTried[b] + [id]], nTried := m1.nTried + 1,
                       mapInfo := m1.mapInfo[id := m1.mapInfo[id].(inTried := true)])
    ensures Consistent(h, m', NoGap) && Promoted(h, m, m', id, origin, rand, None, 0)
  {
    hide Consistent, Select;
    PlaceConsistent(h, m1, id, b);
    assert m' == Place(m1, id, b);
  }

  lemma ShuffledConsistent(h: Hashing, m1: Man, m2: Man, gap: Gap)
    requires Consistent(h, m1, gap) && m2 == m1.(vvTried := m2.vvTried) && TriedOK(h, m2.key, m2.mapInfo, m2.vvTried)
    ensures Consistent(h, m2, gap)
  {
  }

  lemma ReplacePromotes(h: Hashing, m: Man, m1: Man, m2: Man, m': Man, id: Id, origin: nat, rand: Random, b: nat,
                        p: nat, out: Id, nb: nat)
    requires id in m.mapInfo && !m.mapInfo[id].inTried && m1 == Withdraw(m, id) && Consistent(h, m1, Limbo(id))
    requires m1.mapInfo == m.mapInfo[id := m.mapInfo[id].(refCount := 0)]
    requires b == TriedBucket(h, m.key, m.mapInfo[id].svc) && b < |m.vvTried| && |m.vvTried[b]| >= 64
    requires Shuffled(m1, m2, rand, b, p) && TriedOK(h, m2.key, m2.mapInfo, m2.vvTried) && m2.key == m.key
    requires b < |m2.vvTried| && p < |m2.vvTried[b]| && out == m2.vvTried[b][p] && out in m2.mapInfo
    requires nb < NEW_BUCKET_COUNT == |m2.vvNew| && |m2.vvNew[nb]| < NEW_BUCKET_SIZE
    requires m' == Replace(m2, id, b, p, nb) && GoesBack(h, m2, id, m2.mapInfo[out], origin, nb)
    ensures Consistent(h, m', NoGap) && Promoted(h, m, m', id, origin, rand, Some(out), nb)
  {
    hide Consistent, Select, Promoted, GoesBack;
    ShuffledConsistent(h, m1, m2, Limbo(id));
    ReplaceConsistent(h, m2, id, b, p, nb);
    assert TriedAt(m2.vvTried, b, p, out);
    ReplacedIsPromoted(h, m, m1, m2, m', id, origin, rand, b, p, out, nb);
  }

  lemma ReplacedIsPromoted(h: Hashing, m: Man, m1: Man, m2: Man, m': Man, id: Id, origin: nat, rand: Random,
                           b: nat, p: nat, out: Id, nb: nat)
    requires id in m.mapInfo && !m.mapInfo[id].inTried && m1 == Withdraw(m, id)
    requires b == TriedBucket(h, m.key, m.mapInfo[id].svc) && b < |m.vvTried| && |m.vvTried[b]| >= 64
    requires Shuffled(m1, m2, rand, b, p) && b < |m2.vvTried| && p < |m2.vvTried[b]| && out == m2.vvTried[b][p]
    requires out in m2.mapInfo && m2.mapInfo[out].inTried && TriedBucket(h, m2.key, m2.mapInfo[out].svc) == b
    requires nb < |m2.vvNew| && |m2.vvNew[nb]| < NEW_BUCKET_SIZE
    requires m' == Replace(m2, id, b, p, nb) && GoesBack(h, m2, id, m2.mapInfo[out], origin, nb)
    ensures Promoted(h, m, m', id, origin, rand, Some(out), nb)
  {
    hide EntriesPromoted, Swapped, TriedBucket, NewBucket, Select, Shuffled, Replace;
    ReplacedTables(m, m1, m2, m', id, rand, b, p, out, nb);
    ReplacedEntries(m, m1, m2, m', id, rand, b, p, out, nb);
    RemovedTwice(m.vvNew, id);
  }

  lemma ReplacedTables(m: Man, m1: Man, m2: Man, m': Man, id: Id, rand: Random, b: nat, p: nat, out: Id, nb: nat)
    requires id in m.mapInfo && m1 == Withdraw(m, id) && b < |m.vvTried| && |m.vvTried[b]| >= 64
    requires Shuffled(m1, m2, rand, b, p) && b < |m2.vvTried| && p < |m2.vvTried[b]| && out == m2.vvTried[b][p]
    requires out in m2.mapInfo && nb < |m2.vvNew| && |m2.vvNew[nb]| < NEW_BUCKET_SIZE
    requires m' == Replace(m2, id, b, p, nb)
    ensures Swapped(m, m', id, b, rand, out, nb) && m2.key == m.key && m2.vvNew == RemoveEverywhere(m.vvNew, id)
  {
    hide Select, Exchanged;
    SelectFrame(m.mapInfo, m1.mapInfo, m.vvTried[b], rand, Inspected(m.vvTried[b]));
  }

  lemma ReplacedEntries(m: Man, m1: Man, m2: Man, m': Man, id: Id, rand: Random, b: nat, p: nat, out: Id, nb: nat)
    requires id in m.mapInfo && !m.mapInfo[id].inTried && m1 == Withdraw(m, id)
    requires Shuffled(m1, m2, rand, b, p) && b < |m2.vvTried| && p < |m2.vvTried[b]| && out == m2.vvTried[b][p]
    requires out in m2.mapInfo && m2.mapInfo[out].inTried && nb < |m2.vvNew|
    requires m' == Replace(m2, id, b, p, nb)
    ensures EntriesPromoted(m, m', id, Some(out)) && m.mapInfo[out] == m2.mapInfo[out]
  {
    hide Select;
  }

  /** Tried bucket b is as the selection leaves it, which has come to position p; nothing else is different. */
  ghost predicate Shuffled(m1: Man, m2: Man, rand: Random, b: nat, p: nat) {
    && b < |m1.vvTried| && m2 == m1.(vvTried := m2.vvTried)
    && var sel := Select(m1.mapInfo, m1.vvTried[b], rand, Inspected(m1.vvTried[b]));
    && m2.vvTried == m1.vvTried[b := sel.v] && p == sel.pos && p < |sel.v|
  }

  lemma RemovedTwice(vvNew: seq<set<Id>>, id: Id)
    ensures forall b :: 0 <= b < |vvNew| ==> RemoveEverywhere(vvNew, id)[b] == RemoveEverywhere(vvNew, id)[b] - {id}
  {
  }

  function Wrapped(k: nat, n: nat): (r: nat)
    requires n > 0
    ensures r < n && (k < n ==> r == k) && (n <= k < 2 * n ==> r == k - n)
  {
    k % n
  }

  /** The address is known, under the same port. */
  ghost predicate Matches(m: Man, svc: Service) {
    svc.ip in m.mapAddr && m.mapAddr[svc.ip] in m.mapInfo && m.mapInfo[m.mapAddr[svc.ip]].svc == svc
  }

  function GoodInfo(i: Info, t: int): Info {
    i.(lastSuccess := t, lastTry := t, nTime := ToU32(t), attempts := 0)
  }

  function AttemptInfo(i: Info, t: int): Info {
    i.(lastTry := t, attempts := i.attempts + 1)
  }

  function ConnectedInfo(i: Info, t: int): Info {
    if t - i.nTime > 20 * 60 then i.(nTime := ToU32(t)) else i
  }

  function AddressOf(i: Info): Address {
    Address(i.svc, i.services, i.nTime)
  }

  /** What Good_ promises of an entry it recognises. */
  ghost predicate MadeGood(h: Hashing, m: Man, m': Man, svc: Service, t: int, rand: Random, origin: nat,
                           out: Option<Id>, back: nat)
    requires Matches(m, svc)
  {
    var id := m.mapAddr[svc.ip];
    var i := m.mapInfo[id];
    var marked := m.(mapInfo := m.mapInfo[id := i.(lastSuccess := t, lastTry := t, nTime := t % 0x1_0000_0000,
                                                   attempts := 0)]);
    && m'.mapAddr == m.mapAddr && id in m'.mapInfo && m'.mapInfo[id].inTried && m'.mapInfo[id].lastSuccess == t
    && (if i.inTried then m' == marked && out.None?
        else FirstHolding(m.vvNew, id, rand, origin) && Promoted(h, marked, m', id, origin, rand, out, back))
    && (Timely(m) ==> (Timely(m') <==> t > 0))
  }

  /** Of the new buckets that hold id, the first one from a random one on, around the end. */
  ghost predicate FirstHolding(vvNew: seq<set<Id>>, id: Id, rand: Random, b: nat) {
    && b < |vvNew| && id in vvNew[b]
    && var start := Draw(rand, 5, |vvNew|);
    && forall k :: start <= k < (if b < start then b + |vvNew| else b) ==> id !in vvNew[Wrapped(k, |vvNew|)]
  }

  lemma GoodTouch(h: Hashing, m: Man, id: Id, t: int)
    requires Consistent(h, m, NoGap) && id in m.mapInfo
    ensures Consistent(h, Touch(m, id, GoodInfo(m.mapInfo[id], t)), NoGap)
    ensures |m.vvNew| == NEW_BUCKET_COUNT && (!m.mapInfo[id].inTried ==> Holding(m.vvNew, id) != {})
  {
    assert RefOK(m.mapInfo[id], |Holding(m.vvNew, id)|, id, NoGap);
    TouchConsistent(h, m, id, GoodInfo(m.mapInfo[id], t), NoGap);
  }

  lemma MarkedGood(h: Hashing, m: Man, m': Man, svc: Service, t: int, rand: Random)
    requires Matches(m, svc) && m.mapInfo[m.mapAddr[svc.ip]].inTried
    requires m' == Touch(m, m.mapAddr[svc.ip], GoodInfo(m.mapInfo[m.mapAddr[svc.ip]], t))
    ensures MadeGood(h, m, m', svc, t, rand, 0, None, 0)
  {
    TimelyAfter(m, m', m.mapAddr[svc.ip], t, None);
  }

  lemma PromotedGood(h: Hashing, m: Man, marked: Man, m': Man, svc: Service, t: int, rand: Random,
                     origin: nat, out: Option<Id>, back: nat)
    requires Matches(m, svc) && !m.mapInfo[m.mapAddr[svc.ip]].inTried
    requires marked == Touch(m, m.mapAddr[svc.ip], GoodInfo(m.mapInfo[m.mapAddr[svc.ip]], t))
    requires FirstHolding(m.vvNew, m.mapAddr[svc.ip], rand, origin)
    requires Promoted(h, marked, m', m.mapAddr[svc.ip], origin, rand, out, back)
    ensures MadeGood(h, m, m', svc, t, rand, origin, out, back) && m'.mapAddr == m.mapAddr
  {
    hide FirstHolding, Swapped, Appended;
    TimelyAfter(m, m', m.mapAddr[svc.ip], t, out);
  }

  /** The self-check's clock conditions survive a success exactly if its time is positive. */
  lemma TimelyAfter(m: Man, m': Man, id: Id, t: int, out: Option<Id>)
    requires id in m.mapInfo && m'.mapInfo.Keys == m.mapInfo.Keys
    requires m'.mapInfo[id].lastSuccess == m'.mapInfo[id].lastTry == t && m'.mapInfo[id].inTried
    requires forall x :: x in m.mapInfo && x != id && Some(x) != out ==> m'.mapInfo[x] == m.mapInfo[x]
    requires out.Some? ==> out.value in m.mapInfo && out.value != id &&
                           m'.mapInfo[out.value] == m.mapInfo[out.value].(inTried := false, refCount := 1)
    ensures Timely(m) ==> (Timely(m') <==> t > 0)
  {
    assert TimelyInfo(m'.mapInfo[id]) <==> t > 0;
    if Timely(m) && t > 0 {
      forall x | x in m'.mapInfo ensures TimelyInfo(m'.mapInfo[x]) {
        assert TimelyInfo(m.mapInfo[x]);
      }
    }
  }

  /** The same entries, at other places of the random order. */
  ghost predicate Reordered(a: map<Id, Info>, b: map<Id, Info>) {
    a.Keys == b.Keys && forall id :: id in a ==> b[id] == a[id].(randomPos := b[id].randomPos)
  }

  lemma ReorderedSame(a: map<Id, Info>)
    ensures Reordered(a, a)
  {
  }

  /** Reordering loses no entry and changes no address. */
  lemma SameAddresses(a: map<Id, Info>, b: map<Id, Info>, start: map<Id, Info>)
    requires Reordered(start, a) && Reordered(a, b)
    ensures Reordered(start, b) && a.Keys == b.Keys == start.Keys && |b| == |start|
    ensures forall id :: id in a ==> AddressOf(a[id]) == AddressOf(b[id]) == AddressOf(start[id])
  {
  }

  lemma SwapRandomPrefix(m: Man, p: nat, q: nat)
    requires p <= q && Swappable(m, p, q)
    ensures var m' := SwapRandom(m, p, q);
            && m'.vRandom[..p] == m.vRandom[..p] && m'.vRandom == SwapSeq(m.vRandom, p, q)
            && Reordered(m.mapInfo, m'.mapInfo) && m'.vRandom[p] in m'.mapInfo
  {
  }

  /** The random order after n rounds of GetAddr_, each swapping a random later entry to the front. */
  ghost function Dealt(v: seq<Id>, rand: Random, n: nat): (w: seq<Id>)
    requires n <= |v|
    ensures |w| == |v|
  {
    if n == 0 then v
    else SwapSeq(Dealt(v, rand, n - 1), n - 1, Draw(rand, n - 1, |v| - (n - 1)) + n - 1)
  }

  lemma DealtNone(v: seq<Id>, rand: Random)
    ensures Dealt(v, rand, 0) == v
  {
  }

  lemma DealtMore(v: seq<Id>, rand: Random, n: nat)
    requires n < |v|
    ensures Dealt(v, rand, n + 1) == SwapSeq(Dealt(v, rand, n), n, Draw(rand, n, |v| - n) + n)
  {
  }

  /** Known ids with their addresses. */
  ghost predicate Sampled(info: map<Id, Info>, ids: seq<Id>, vAddr: seq<Address>) {
    && |vAddr| == |ids|
    && forall i :: 0 <= i < |ids| ==>
         && ids[i] in info
         && vAddr[i] == Address(info[ids[i]].svc, info[ids[i]].services, info[ids[i]].nTime)
  }

  lemma SampledNone(info: map<Id, Info>)
    ensures Sampled(info, [], [])
  {
  }

  lemma SampledMore(info: map<Id, Info>, ids: seq<Id>, vAddr: seq<Address>, id: Id)
    requires Sampled(info, ids, vAddr) && id in info
    ensures Sampled(info, ids + [id], vAddr + [AddressOf(info[id])])
  {
  }

  lemma PrefixDistinct(v: seq<Id>, n: nat)
    requires Distinct(v) && n <= |v|
    ensures Distinct(v[..n])
  {
  }

  /** Every entry has exactly one place in the random order. */
  lemma RandomSize(info: map<Id, Info>, vRandom: seq<Id>)
    requires RandomOK(info, vRandom)
    ensures |vRandom| == |info|
  {
    assert Elements(vRandom) == info.Keys by {
      forall x | x in info ensures x in vRandom {
        assert vRandom[info[x].randomPos] == x;
      }
    }
    DistinctCard(vRandom);
  }

  lemma RandomOrder(h: Hashing, m: Man)
    requires Consistent(h, m, NoGap)
    ensures |m.vRandom| == |m.mapInfo| && forall i :: 0 <= i < |m.vRandom| ==> m.vRandom[i] in m.mapInfo
    ensures Distinct(m.vRandom)
  {
    RandomSize(m.mapInfo, m.vRandom);
  }

  class CAddrMan {
    const hashing: Hashing
    var key: seq<nat>
    var idCount: nat
    var mapInfo: map<Id, Info>
    var mapAddr: map<NetAddr, Id>
    var vRandom: seq<Id>
    var nTried: int
    var nNew: int
    var vvTried: seq<seq<Id>>
    var vvNew: seq<set<Id>>

    ghost function State(): Man
      reads this
    {
      Man(key, idCount, mapInfo, mapAddr, vRandom, nTried, nNew, vvTried, vvNew)
    }

    ghost predicate Valid()
      reads this
    {
      Consistent(hashing, State(), NoGap)
    }

    constructor (hashing: Hashing, key: seq<nat>)
      ensures Valid() && Timely(State())
      ensures this.hashing == hashing && this.key == key && mapInfo == map[] && mapAddr == map[]
    {
      this.hashing := hashing;
      this.key := key;
      idCount, nTried, nNew := 0, 0, 0;
      mapInfo, mapAddr, vRandom := map[], map[], [];
      vvTried := seq(TRIED_BUCKET_COUNT, _ => []);
      vvNew := seq(NEW_BUCKET_COUNT, _ => {});
      new;
      assert TriedIds(mapInfo) == {} && NewIds(mapInfo, NoGap) == {};
    }

    // -------------------------------------------------------------- the random order

    method SwapRandomAt(p: int, q: int)
      requires p == q || Swappable(State(), p, q)
      modifies this`mapInfo, this`vRandom
      ensures State() == SwapRandom(old(State()), p, q)
      ensures mapInfo.Keys == old(mapInfo).Keys && |vRandom| == |old(vRandom)|
    {
      if p == q {
        return;
      }
      var a, b := vRandom[p], vRandom[q];
      mapInfo := mapInfo[a := mapInfo[a].(randomPos := q)];
      mapInfo := mapInfo[b := mapInfo[b].(randomPos := p)];
      vRandom := vRandom[p := b];
      vRandom := vRandom[q := a];
    }

    // -------------------------------------------------------------- shrinking a new bucket

    /** The entry leaves the random order, the address index and the table. */
    method ForgetEntry(id: Id)
      requires id in mapInfo && |vRandom| > 0
      requires Swappable(State(), mapInfo[id].randomPos, |vRandom| - 1)
      modifies this`mapInfo, this`vRandom, this`mapAddr, this`nNew
      ensures State() == Forget(old(State()), id)
    {
      hide SwapRandom;
      SwapRandomAt(mapInfo[id].randomPos, |vRandom| - 1);
      vRandom := vRandom[..|vRandom| - 1];
      mapAddr := mapAddr - {mapInfo[id].svc.ip};
      mapInfo := mapInfo - {id};
      nNew := nNew - 1;
    }

    /** One bucket lets go of one id, which is deleted with its last reference. */
    method DropReference(b: nat, id: Id)
      requires b < |vvNew| && id in mapInfo && |vRandom| > 0
      requires Swappable(State(), mapInfo[id].randomPos, |vRandom| - 1)
      modifies this
      ensures State() == Unref(old(State()), b, id)
    {
      hide Forget;
      mapInfo := mapInfo[id := mapInfo[id].(refCount := mapInfo[id].refCount - 1)];
      if mapInfo[id].refCount == 0 {
        ForgetEntry(id);
      }
      vvNew := vvNew[b := vvNew[b] - {id}];
    }

    /** ShrinkNew: drop the first terrible entry, else the oldest of four random ones. */
    method ShrinkNew(b: nat, now: int, rand: Random) returns (r: int, victim: Id)
      requires b < |vvNew| && vvNew[b] <= mapInfo.Keys && |vvNew[b]| > 0
      requires RandomOK(mapInfo, vRandom)
      modifies this
      ensures victim in old(vvNew)[b]
      ensures IsVictim(old(mapInfo), old(vvNew)[b], now, rand, victim)
      ensures r == if SomeTerrible(old(mapInfo), old(vvNew)[b], now) then 0 else 1
      ensures State() == Unref(old(State()), b, victim)
    {
      r, victim := ChooseVictim(mapInfo, vvNew[b], now, rand);
      assert vRandom[mapInfo[victim].randomPos] == victim;
      DropReference(b, victim);
    }

    // -------------------------------------------------------------- learning of an address

    /** A bucket takes one more reference to id, making room first if it is full. */
    method ReferenceIn(id: Id, b: nat, now: int, rand: Random) returns (ghost victim: Option<Id>)
      requires id in mapInfo && b < |vvNew| && vvNew[b] <= mapInfo.Keys && |vvNew[b]| <= NEW_BUCKET_SIZE
      requires RandomOK(mapInfo, vRandom)
      modifies this
      ensures victim.Some? <==> |old(vvNew)[b]| == NEW_BUCKET_SIZE
      ensures victim.Some? ==> victim.value in old(vvNew)[b]
      ensures victim.Some? ==> IsVictim(old(mapInfo), old(vvNew)[b], now, rand, victim.value)
      ensures State() == AddReference(SetRefs(old(State()), id, old(mapInfo)[id].refCount + 1), b, id, victim)
    {
      ghost var before, vvNewBefore := mapInfo, vvNew;
      mapInfo := mapInfo[id := mapInfo[id].(refCount := mapInfo[id].refCount + 1)];
      TouchRandomOK(before, vRandom, id, mapInfo[id]);
      victim := None;
      if |vvNew[b]| == NEW_BUCKET_SIZE {
        ghost var info := mapInfo;
        var r, v := ShrinkNew(b, now, rand);
        VictimFrame(info, before, vvNewBefore[b], now, rand, v);
        victim := Some(v);
      }
      vvNew := vvNew[b := vvNew[b] + {id}];
    }

    /** The entry for an unknown address: created and counted, not yet in any bucket. */
    method CreateEntry(a: Address, source: NetAddr, penalty: int) returns (id: Id)
      modifies this
      ensures id == old(idCount)
      ensures State() == Created(old(State()), a, source, penalty)
    {
      id := idCount;
      idCount := idCount + 1;
      mapInfo := mapInfo[id := NewInfo(a, source, |vRandom|)];
      mapAddr := mapAddr[a.svc.ip := id];
      vRandom := vRandom + [id];
      mapInfo := mapInfo[id := mapInfo[id].(nTime := ToU32(Max0(a.nTime - penalty)))];
      nNew := nNew + 1;
    }

    /** Whether a known entry earns one more reference; its time and services are updated either way. */
    method RefreshEntry(id: Id, a: Address, penalty: int, now: int, rand: Random) returns (wanted: bool)
      requires id in mapInfo
      modifies this`mapInfo
      ensures State() == Touch(old(State()), id, Refreshed(old(mapInfo)[id], a, now, penalty))
      ensures wanted <==> Earns(mapInfo[id], a, rand)
    {
      mapInfo := mapInfo[id := Refreshed(mapInfo[id], a, now, penalty)];
      var info := mapInfo[id];
      if a.nTime == 0 || (info.nTime != 0 && a.nTime <= info.nTime) {
        return false;
      }
      if info.inTried {
        return false;
      }
      if info.refCount == NEW_BUCKETS_PER_ADDRESS {
        return false;
      }
      var nFactor, n := 1, 0;
      while n < info.refCount
        invariant 0 <= n && (n == 0 || n <= info.refCount) && nFactor == Pow2(n)
      {
        nFactor := nFactor * 2;
        n := n + 1;
      }
      wanted := nFactor <= 1 || Draw(rand, 4, nFactor) == 0;
    }

    method AddKnown(id: Id, a: Address, source: NetAddr, penalty: int, now: int, rand: Random)
      returns (ghost lost: Option<Id>)
      requires Valid() && id in mapInfo && mapInfo[id].svc.ip == a.svc.ip
      modifies this
      ensures Valid()
      ensures AddedKnown(hashing, old(State()), State(), id, a, source, penalty, now, rand, lost)
      ensures Learned(old(State()), State(), a, lost)
    {
      hide IsVictim, Learned, Earns, Refreshed, Consistent, AddReference, RandomOK;
      lost := None;
      ghost var before := State();
      var wanted := RefreshEntry(id, a, penalty, now, rand);
      ghost var m1 := State();
      RefreshedConsistent(hashing, before, m1, id, a, now, penalty);
      BucketShape(hashing, m1);
      RefreshedSvc(before.mapInfo[id], a, now, penalty);
      EarnsFacts(mapInfo[id], a, rand);
      if !wanted {
        return;
      }
      var b := NewBucket(hashing, key, mapInfo[id].svc, source);
      if id in vvNew[b] {
        return;
      }
      lost := ReferenceIn(id, b, now, rand);
      if lost.Some? { OtherVictim(hashing, before, m1, id, b, now, rand, lost.value); }
      KnownReferenced(hashing, before, m1, b, id, a, lost);
    }

    method AddUnknown(a: Address, source: NetAddr, penalty: int, now: int, rand: Random)
      returns (ghost lost: Option<Id>)
      requires Valid() && a.svc.ip !in mapAddr
      modifies this
      ensures Valid()
      ensures AddedUnknown(hashing, old(State()), State(), a, source, penalty, now, rand, lost)
      ensures Learned(old(State()), State(), a, lost)
    {
      hide Consistent, Learned, Created, AddReference, SetRefs, IsVictim;
      ghost var before := State();
      CreatedShape(hashing, before, a, source, penalty);
      CreatedAdds(before, a, source, penalty);
      var id := CreateEntry(a, source, penalty);
      ghost var m1 := State();
      var b := NewBucket(hashing, key, mapInfo[id].svc, source);
      lost := ReferenceIn(id, b, now, rand);
      if lost.Some? { OtherVictim(hashing, before, m1, id, b, now, rand, lost.value); }
      UnknownReferenced(hashing, before, m1, a, source, penalty, b, lost);
    }

    /** Add_: an address is known afterwards; at most one other, untried, may be forgotten for it. */
    method Add(a: Address, source: NetAddr, penalty: int, now: int, routable: bool, rand: Random)
      returns (fNew: bool, ghost lost: Option<Id>)
      requires Valid()
      modifies this
      ensures Valid()
      ensures fNew <==> routable && a.svc.ip !in old(mapAddr)
      ensures !routable ==> State() == old(State())
      ensures routable ==> Learned(old(State()), State(), a, lost)
      ensures fNew ==> AddedUnknown(hashing, old(State()), State(), a, source, penalty, now, rand, lost)
      ensures routable && !fNew ==> old(mapAddr)[a.svc.ip] in old(mapInfo)
      ensures routable && !fNew ==>
                AddedKnown(hashing, old(State()), State(), old(mapAddr)[a.svc.ip], a, source, penalty, now, rand, lost)
    {
      fNew, lost := false, None;
      if !routable {
        return;
      }
      if a.svc.ip in mapAddr && mapAddr[a.svc.ip] in mapInfo {
        lost := AddKnown(mapAddr[a.svc.ip], a, source, penalty, now, rand);
      } else {
        lost := AddUnknown(a, source, penalty, now, rand);
        fNew := true;
      }
    }

    // -------------------------------------------------------------- a good address

    /** SelectTried: shuffle a few entries to the front; the returned position is where one of them was. */
    method SelectTried(b: nat, rand: Random) returns (pos: nat)
      requires b < |vvTried| && |vvTried[b]| > 0 && TriedOK(hashing, key, mapInfo, vvTried)
      modifies this`vvTried
      ensures TriedOK(hashing, key, mapInfo, vvTried)
      ensures |vvTried| == |old(vvTried)| && |vvTried[b]| == |old(vvTried)[b]| && pos < |vvTried[b]|
      ensures var sel := Select(mapInfo, old(vvTried)[b], rand, Inspected(old(vvTried)[b]));
              vvTried[b] == sel.v && pos == sel.pos
      ensures forall c :: 0 <= c < |vvTried| && c != b ==> vvTried[c] == old(vvTried)[c]
    {
      hide TriedOK, SuccessOf, Select, Draw, SwapSeq;
      SelectNone(mapInfo, vvTried[b], rand);
      ghost var start := vvTried[b];
      pos := 0;
      var oldest: Option<Id> := None;
      var i := 0;
      while i < 4 && i < |vvTried[b]|
        invariant 0 <= i <= Inspected(start)
        invariant TriedOK(hashing, key, mapInfo, vvTried)
        invariant |vvTried| == |old(vvTried)| && |vvTried[b]| == |start| && pos < |vvTried[b]|
        invariant Select(mapInfo, start, rand, i) == Selection(vvTried[b], oldest, pos)
        invariant forall c :: 0 <= c < |vvTried| && c != b ==> vvTried[c] == old(vvTried)[c]
      {
        var nPos := Draw(rand, i, |vvTried[b]| - i) + i;
        SelectNext(mapInfo, start, rand, i);
        SwapTriedOK(hashing, key, mapInfo, vvTried, b, i, nPos);
        var temp := vvTried[b][nPos];
        vvTried := vvTried[b := SwapSeq(vvTried[b], i, nPos)];
        if oldest.None? || SuccessOf(mapInfo, temp) < SuccessOf(mapInfo, oldest.value) {
          oldest, pos := Some(temp), nPos;
        }
        i := i + 1;
      }
    }

    /** The entry is taken out of every new bucket, its references counted down on the way. */
    method WithdrawEntry(id: Id)
      requires id in mapInfo && mapInfo[id].refCount == |Holding(vvNew, id)|
      modifies this`mapInfo, this`vvNew, this`nNew
      ensures State() == Withdraw(old(State()), id)
    {
      var i := 0;
      HoldingFromStart(vvNew, id);
      while i < |vvNew|
        invariant 0 <= i <= |vvNew| == |old(vvNew)|
        invariant forall b :: 0 <= b < |vvNew| ==> vvNew[b] == if b < i then old(vvNew)[b] - {id} else old(vvNew)[b]
        invariant nNew == old(nNew)
        invariant mapInfo == old(mapInfo)[id := old(mapInfo)[id].(refCount := |HoldingFrom(old(vvNew), id, i)|)]
      {
        HoldingFromStep(old(vvNew), id, i);
        if id in vvNew[i] {
          vvNew := vvNew[i := vvNew[i] - {id}];
          mapInfo := mapInfo[id := mapInfo[id].(refCount := mapInfo[id].refCount - 1)];
        } else {
          assert vvNew[i] == old(vvNew)[i] - {id};
        }
        i := i + 1;
      }
      assert HoldingFrom(old(vvNew), id, i) == {};
      assert vvNew == RemoveEverywhere(old(vvNew), id);
      assert mapInfo == SetRefs(old(State()), id, 0).mapInfo;
      nNew := nNew - 1;
    }

    /** The entry at place p of tried bucket b goes to new bucket nb, and id takes its place. */
    method Exchange(id: Id, b: nat, p: nat, nb: nat)
      requires id in mapInfo && b < |vvTried| && p < |vvTried[b]| && vvTried[b][p] in mapInfo && nb < |vvNew|
      modifies this
      ensures State() == Replace(old(State()), id, b, p, nb)
    {
      var out := vvTried[b][p];
      mapInfo := mapInfo[out := mapInfo[out].(inTried := false, refCount := 1)];
      vvNew := vvNew[nb := vvNew[nb] + {out}];
      nNew := nNew + 1;
      vvTried := vvTried[b := SetAt(vvTried[b], p, id)];
      mapInfo := mapInfo[id := mapInfo[id].(inTried := true)];
    }

    /** Into a full tried bucket: one of its entries goes back to its own new bucket, or to origin if that is full. */
    method EvictFor(id: Id, b: nat, origin: nat, rand: Random)
      returns (ghost shuffled: Man, p: nat, nb: nat)
      requires id in mapInfo && b < |vvTried| && |vvTried[b]| > 0 && TriedOK(hashing, key, mapInfo, vvTried)
      requires origin < |vvNew| == NEW_BUCKET_COUNT && |vvNew[origin]| < NEW_BUCKET_SIZE
      requires forall c :: 0 <= c < |vvNew| ==> id !in vvNew[c]
      modifies this
      ensures shuffled == old(State()).(vvTried := shuffled.vvTried) && Shuffled(old(State()), shuffled, rand, b, p)
      ensures b < |shuffled.vvTried| && p < |shuffled.vvTried[b]| && shuffled.vvTried[b][p] in shuffled.mapInfo
      ensures TriedOK(hashing, key, shuffled.mapInfo, shuffled.vvTried) && key == old(key)
      ensures nb < NEW_BUCKET_COUNT && |old(vvNew)[nb]| < NEW_BUCKET_SIZE
      ensures GoesBack(hashing, shuffled, id, shuffled.mapInfo[shuffled.vvTried[b][p]], origin, nb)
      ensures State() == Replace(shuffled, id, b, p, nb)
    {
      hide Select;
      ghost var before := vvTried;
      p := SelectTried(b, rand);
      shuffled := State();
      assert vvTried == before[b := vvTried[b]];
      assert TriedAt(vvTried, b, p, vvTried[b][p]);
      var out := vvTried[b][p];
      nb := NewBucket(hashing, key, mapInfo[out].svc, mapInfo[out].source);
      assert vvNew[nb] - {id} == vvNew[nb];
      if |vvNew[nb]| >= NEW_BUCKET_SIZE {
        nb := origin;
      }
      Exchange(id, b, p, nb);
    }

    /** MakeTried: into the bucket the key selects; from a full one an entry goes back to a new bucket with room. */
    method MakeTried(id: Id, origin: nat, rand: Random) returns (ghost out: Option<Id>, ghost back: nat)
      requires Valid() && id in mapInfo && !mapInfo[id].inTried
      requires origin < |vvNew| && id in vvNew[origin]
      modifies this
      ensures Valid()
      ensures Promoted(hashing, old(State()), State(), id, origin, rand, out, back)
    {
      hide Consistent, Withdraw, Place, Replace, Promoted, TriedOK, Shuffled, GoesBack;
      ghost var before := State();
      WithdrawShape(hashing, before, id, origin);
      out, back := None, 0;
      WithdrawEntry(id);
      ghost var m1 := State();
      var b := TriedBucket(hashing, key, mapInfo[id].svc);
      if |vvTried[b]| < TRIED_BUCKET_SIZE {
        vvTried := vvTried[b := vvTried[b] + [id]];
        nTried := nTried + 1;
        mapInfo := mapInfo[id := mapInfo[id].(inTried := true)];
        PlacePromotes(hashing, before, m1, State(), id, origin, rand, b);
      } else {
        ghost var m2;
        var p, nb;
        m2, p, nb := EvictFor(id, b, origin, rand);
        out, back := Some(m2.vvTried[b][p]), nb;
        ReplacePromotes(hashing, before, m1, m2, State(), id, origin, rand, b, p, out.value, nb);
      }
    }

    /** The search of Good_ for a new bucket that holds the id, starting at a random one. */
    method FindNewBucket(id: Id, rand: Random) returns (bucket: int)
      requires |vvNew| > 0
      ensures bucket == -1 <==> Holding(vvNew, id) == {}
      ensures bucket != -1 ==> 0 <= bucket && FirstHolding(vvNew, id, rand, bucket)
    {
      var nRnd := Draw(rand, 5, |vvNew|);
      var n := 0;
      while n < |vvNew|
        invariant 0 <= n <= |vvNew|
        invariant forall k :: nRnd <= k < nRnd + n ==> id !in vvNew[Wrapped(k, |vvNew|)]
      {
        var b := Wrapped(n + nRnd, |vvNew|);
        if id in vvNew[b] {
          assert b in Holding(vvNew, id);
          assert FirstHolding(vvNew, id, rand, b);
          return b;
        }
        n := n + 1;
      }
      forall b | 0 <= b < |vvNew| ensures id !in vvNew[b] {
        var k := if b >= nRnd then b else b + |vvNew|;
        assert Wrapped(k, |vvNew|) == b;
      }
      bucket := -1;
    }

    /** Good_: an address known under this very service is tried afterwards; no address is ever lost. */
    method Good(svc: Service, t: int, rand: Random) returns (ghost out: Option<Id>, ghost origin: nat, ghost back: nat)
      requires Valid()
      modifies this
      ensures Valid()
      ensures mapAddr == old(mapAddr)
      ensures !Matches(old(State()), svc) ==> State() == old(State())
      ensures Matches(old(State()), svc) ==> MadeGood(hashing, old(State()), State(), svc, t, rand, origin, out, back)
    {
      hide Consistent, MadeGood, Promoted;
      out, origin, back := None, 0, 0;
      if !(svc.ip in mapAddr && mapAddr[svc.ip] in mapInfo) {
        return;
      }
      var id := mapAddr[svc.ip];
      if mapInfo[id].svc != svc {
        return;
      }
      ghost var before := State();
      GoodTouch(hashing, before, id, t);
      mapInfo := mapInfo[id := GoodInfo(mapInfo[id], t)];
      ghost var marked := State();
      if mapInfo[id].inTried {
        MarkedGood(hashing, before, marked, svc, t, rand);
        return;
      }
      var bucket := FindNewBucket(id, rand);
      if bucket == -1 {
        // The exit the source keeps for a broken table.
        assert false;
      }
      origin := bucket;
      out, back := MakeTried(id, bucket, rand);
      PromotedGood(hashing, before, marked, State(), svc, t, rand, origin, out, back);
    }

    /** Attempt_ */
    method Attempt(svc: Service, t: int)
      requires Valid()
      modifies this`mapInfo
      ensures Valid()
      ensures !Matches(old(State()), svc) ==> State() == old(State())
      ensures Matches(old(State()), svc) ==>
                var id := mapAddr[svc.ip];
                State() == Touch(old(State()), id, AttemptInfo(old(mapInfo)[id], t))
      ensures Matches(old(State()), svc) ==>
                var id := mapAddr[svc.ip];
                var i := old(mapInfo)[id];
                mapInfo == old(mapInfo)[id := i.(lastTry := t, attempts := i.attempts + 1)]
    {
      hide Consistent;
      if !(svc.ip in mapAddr && mapAddr[svc.ip] in mapInfo) {
        return;
      }
      var id := mapAddr[svc.ip];
      if mapInfo[id].svc != svc {
        return;
      }
      TouchConsistent(hashing, State(), id, AttemptInfo(mapInfo[id], t), NoGap);
      mapInfo := mapInfo[id := mapInfo[id].(lastTry := t, attempts := mapInfo[id].attempts + 1)];
    }

    /** Connected_ */
    method Connected(svc: Service, t: int)
      requires Valid()
      modifies this`mapInfo
      ensures Valid()
      ensures !Matches(old(State()), svc) ==> State() == old(State())
      ensures Matches(old(State()), svc) ==>
                var id := mapAddr[svc.ip];
                State() == Touch(old(State()), id, ConnectedInfo(old(mapInfo)[id], t))
      ensures Matches(old(State()), svc) ==>
                var id := mapAddr[svc.ip];
                var i := old(mapInfo)[id];
                mapInfo == old(mapInfo)[id := i.(nTime := if t - i.nTime > 1200 then t % 0x1_0000_0000 else i.nTime)]
    {
      hide Consistent;
      if !(svc.ip in mapAddr && mapAddr[svc.ip] in mapInfo) {
        return;
      }
      var id := mapAddr[svc.ip];
      if mapInfo[id].svc != svc {
        return;
      }
      TouchConsistent(hashing, State(), id, ConnectedInfo(mapInfo[id], t), NoGap);
      if t - mapInfo[id].nTime > 20 * 60 {
        mapInfo := mapInfo[id := mapInfo[id].(nTime := ToU32(t))];
      } else {
        assert mapInfo == mapInfo[id := mapInfo[id]];
      }
    }

    /** One round of GetAddr_: a random one of the entries from n on comes to place n. */
    method DrawEntry(n: nat, rand: Random) returns (a: Address)
      requires Valid() && n < |vRandom|
      modifies this`mapInfo, this`vRandom
      ensures Valid()
      ensures Reordered(old(mapInfo), mapInfo)
      ensures |vRandom| == |old(vRandom)| && vRandom[..n] == old(vRandom)[..n]
      ensures vRandom == SwapSeq(old(vRandom), n, Draw(rand, n, |old(vRandom)| - n) + n)
      ensures vRandom[n] in mapInfo && a == AddressOf(mapInfo[vRandom[n]])
    {
      hide Consistent, SwapRandom, Reordered;
      ghost var m := State();
      var nRndPos := Draw(rand, n, |vRandom| - n) + n;
      SwapRandomConsistent(hashing, m, n, nRndPos, NoGap);
      SwapRandomPrefix(m, n, nRndPos);
      SwapRandomAt(n, nRndPos);
      a := AddressOf(mapInfo[vRandom[n]]);
    }

    /** The rounds of GetAddr_. */
    method DrawEntries(nNodes: nat, rand: Random) returns (vAddr: seq<Address>, ghost ids: seq<Id>)
      requires Valid() && nNodes <= |vRandom|
      modifies this`mapInfo, this`vRandom
      ensures Valid() && Reordered(old(mapInfo), mapInfo) && |vRandom| == |old(vRandom)|
      ensures |ids| == nNodes && ids == vRandom[..nNodes] && vRandom == Dealt(old(vRandom), rand, nNodes)
      ensures Sampled(old(mapInfo), ids, vAddr)
    {
      hide Consistent, Reordered, AddressOf, Sampled, SwapSeq, Draw, Dealt;
      ReorderedSame(mapInfo);
      vAddr, ids := [], [];
      SampledNone(mapInfo);
      DealtNone(vRandom, rand);
      var n := 0;
      while n < nNodes
        invariant 0 <= n <= nNodes <= |vRandom| == |old(vRandom)|
        invariant Valid() && Reordered(old(mapInfo), mapInfo)
        invariant ids == vRandom[..n] && vRandom == Dealt(old(vRandom), rand, n)
        invariant Sampled(old(mapInfo), ids, vAddr)
      {
        ghost var info := mapInfo;
        DealtMore(old(vRandom), rand, n);
        var a := DrawEntry(n, rand);
        SameAddresses(info, mapInfo, old(mapInfo));
        SampledMore(old(mapInfo), ids, vAddr, vRandom[n]);
        vAddr, ids := vAddr + [a], ids + [vRandom[n]];
        n := n + 1;
      }
    }

    /** GetAddr_: a random sample without repetition, at most 23 percent and at most 2500. */
    method GetAddr(rand: Random) returns (vAddr: seq<Address>, ghost ids: seq<Id>)
      requires Valid()
      modifies this`mapInfo, this`vRandom
      ensures Valid()
      ensures |vAddr| == if 23 * |mapInfo| / 100 > 2500 then 2500 else 23 * |mapInfo| / 100
      ensures Distinct(ids) && Sampled(old(mapInfo), ids, vAddr)
      ensures |ids| <= |old(vRandom)| && vRandom == Dealt(old(vRandom), rand, |ids|) && ids == vRandom[..|ids|]
      ensures Reordered(old(mapInfo), mapInfo)
    {
      hide Consistent, Reordered, Distinct, Dealt;
      RandomOrder(hashing, State());
      var nNodes := 23 * |vRandom| / 100;
      if nNodes > 2500 {
        nNodes := 2500;
      }
      vAddr, ids := DrawEntries(nNodes, rand);
      RandomOrder(hashing, State());
      PrefixDistinct(vRandom, nNodes);
    }
  }
}
