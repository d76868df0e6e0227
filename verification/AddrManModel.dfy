/**
 The address manager's tables as a value, and the consistency they keep: the
 random order, the address index, the new and tried buckets and the counters.
 */
module AddrManModel {

  type NetAddr = nat
  type Id = nat

  datatype Service = Service(ip: NetAddr, port: nat)

  datatype Address = Address(svc: Service, services: set<nat>, nTime: nat)

  datatype Info = Info(
    svc: Service,
    services: set<nat>,      // the set bits
    nTime: nat,
    source: NetAddr,
    lastSuccess: int,
    lastTry: int,
    attempts: nat,
    refCount: int,
    inTried: bool,
    randomPos: int)

  datatype Man = Man(
    key: seq<nat>,
    idCount: nat,
    mapInfo: map<Id, Info>,
    mapAddr: map<NetAddr, Id>,
    vRandom: seq<Id>,
    nTried: int,
    nNew: int,
    vvTried: seq<seq<Id>>,
    vvNew: seq<set<Id>>)

  const TRIED_BUCKET_COUNT := 64
  const TRIED_BUCKET_SIZE := 64
  const NEW_BUCKET_COUNT := 256
  const NEW_BUCKET_SIZE := 64
  const TRIED_BUCKETS_PER_GROUP := 4
  const NEW_BUCKETS_PER_SOURCE_GROUP := 32
  const NEW_BUCKETS_PER_ADDRESS := 4

  /** The keyed hash and the byte strings it is applied to, left arbitrary. */
  datatype Hashing = Hashing(
    hash: seq<nat> -> nat,
    keyOf: Service -> seq<nat>,
    groupOf: NetAddr -> seq<nat>)

  function TriedBucket(h: Hashing, key: seq<nat>, svc: Service): (b: nat)
    ensures b < TRIED_BUCKET_COUNT
  {
    var hash1 := h.hash(key + h.keyOf(svc));
    h.hash(key + h.groupOf(svc.ip) + [hash1 % TRIED_BUCKETS_PER_GROUP]) % TRIED_BUCKET_COUNT
  }

  function NewBucket(h: Hashing, key: seq<nat>, svc: Service, source: NetAddr): (b: nat)
    ensures b < NEW_BUCKET_COUNT
  {
    var hash1 := h.hash(key + h.groupOf(svc.ip) + h.groupOf(source));
    h.hash(key + h.groupOf(source) + [hash1 % NEW_BUCKETS_PER_SOURCE_GROUP]) % NEW_BUCKET_COUNT
  }

  // ---------------------------------------------------------------- the invariant

  /** Where one operation leaves the tables half way: a reference counted early, or an id in no table. */
  datatype Gap = NoGap | Owed(id: Id) | Limbo(id: Id)

  ghost function Holding(vvNew: seq<set<Id>>, id: Id): set<nat> {
    set b: nat | b < |vvNew| && id in vvNew[b]
  }

  ghost function TriedIds(info: map<Id, Info>): set<Id> {
    set id | id in info && info[id].inTried
  }

  ghost function NewIds(info: map<Id, Info>, gap: Gap): set<Id> {
    set id | id in info && !info[id].inTried && gap != Limbo(id)
  }

  /** vRandom and randomPos are inverse to each other. */
  ghost predicate RandomOK(info: map<Id, Info>, vRandom: seq<Id>) {
    && (forall id :: id in info ==> 0 <= info[id].randomPos < |vRandom| && vRandom[info[id].randomPos] == id)
    && (forall p :: 0 <= p < |vRandom| ==> vRandom[p] in info && info[vRandom[p]].randomPos == p)
  }

  /** mapAddr and mapInfo are inverse to each other. */
  ghost predicate AddrOK(info: map<Id, Info>, addr: map<NetAddr, Id>) {
    && (forall id :: id in info ==> info[id].svc.ip in addr && addr[info[id].svc.ip] == id)
    && (forall a :: a in addr ==> addr[a] in info && info[addr[a]].svc.ip == a)
  }

  ghost predicate RefOK(info: Info, held: nat, id: Id, gap: Gap) {
    if info.inTried then info.refCount == 0 && held == 0 && gap != Limbo(id) && gap != Owed(id)
    else if gap == Limbo(id) then info.refCount == 0 && held == 0
    else if gap == Owed(id) then info.refCount == held + 1 && info.refCount <= NEW_BUCKETS_PER_ADDRESS
    else info.refCount == held && 1 <= info.refCount <= NEW_BUCKETS_PER_ADDRESS
  }

  /** Each id is referenced as often as new buckets hold it; tried ids by none. */
  ghost predicate NewOK(info: map<Id, Info>, vvNew: seq<set<Id>>, gap: Gap) {
    && |vvNew| == NEW_BUCKET_COUNT
    && (forall id :: id in info ==> RefOK(info[id], |Holding(vvNew, id)|, id, gap))
    && (forall b :: 0 <= b < |vvNew| ==> vvNew[b] <= info.Keys)
    && (forall b :: 0 <= b < |vvNew| ==> |vvNew[b]| <= NEW_BUCKET_SIZE)
    && (gap.Limbo? || gap.Owed? ==> gap.id in info)
  }

  /** Position p of tried bucket b holds id. */
  ghost predicate TriedAt(vvTried: seq<seq<Id>>, b: int, p: int, id: Id) {
    0 <= b < |vvTried| && 0 <= p < |vvTried[b]| && vvTried[b][p] == id
  }

  /** The tried buckets hold exactly the tried ids, each once, in the bucket its key selects. */
  ghost predicate TriedOK(h: Hashing, key: seq<nat>, info: map<Id, Info>, vvTried: seq<seq<Id>>) {
    && |vvTried| == TRIED_BUCKET_COUNT
    && (forall b :: 0 <= b < |vvTried| ==> |vvTried[b]| <= TRIED_BUCKET_SIZE)
    && (forall id :: id in info && info[id].inTried ==> id in vvTried[TriedBucket(h, key, info[id].svc)])
    && (forall b, p, id :: TriedAt(vvTried, b, p, id) ==>
          id in info && info[id].inTried && TriedBucket(h, key, info[id].svc) == b)
    && (forall b, p, q, id :: TriedAt(vvTried, b, p, id) && TriedAt(vvTried, b, q, id) ==> p == q)
  }

  ghost predicate CountOK(info: map<Id, Info>, nTried: int, nNew: int, gap: Gap) {
    nTried == |TriedIds(info)| && nNew == |NewIds(info, gap)|
  }

  ghost predicate Consistent(h: Hashing, m: Man, gap: Gap) {
    && RandomOK(m.mapInfo, m.vRandom)
    && AddrOK(m.mapInfo, m.mapAddr)
    && (forall id :: id in m.mapInfo ==> id < m.idCount)
    && NewOK(m.mapInfo, m.vvNew, gap)
    && TriedOK(h, m.key, m.mapInfo, m.vvTried)
    && CountOK(m.mapInfo, m.nTried, m.nNew, gap)
  }

  /** The part of the self-check that depends on the clock. */
  ghost predicate Timely(m: Man) {
    forall id :: id in m.mapInfo ==> TimelyInfo(m.mapInfo[id])
  }

  ghost predicate TimelyInfo(i: Info) {
    i.lastTry >= 0 && i.lastSuccess >= 0 && (i.inTried ==> i.lastSuccess != 0)
  }

  // ---------------------------------------------------------------- changes that leave the tables alone

  /** The fields of an entry the tables depend on. */
  ghost predicate SameTables(a: Info, b: Info) {
    && a.svc == b.svc && a.refCount == b.refCount && a.inTried == b.inTried
  }

  ghost predicate SameEntries(a: map<Id, Info>, b: map<Id, Info>) {
    a.Keys == b.Keys && forall id :: id in a ==> SameTables(a[id], b[id])
  }

  lemma SameEntriesTables(h: Hashing, key: seq<nat>, a: map<Id, Info>, b: map<Id, Info>, addr: map<NetAddr, Id>,
                          vvNew: seq<set<Id>>, vvTried: seq<seq<Id>>, nTried: int, nNew: int, gap: Gap)
    requires SameEntries(a, b)
    requires AddrOK(a, addr) && NewOK(a, vvNew, gap) && TriedOK(h, key, a, vvTried) && CountOK(a, nTried, nNew, gap)
    ensures AddrOK(b, addr) && NewOK(b, vvNew, gap) && TriedOK(h, key, b, vvTried) && CountOK(b, nTried, nNew, gap)
  {
    AddrFrame(a, b, addr);
    NewFrame(a, b, vvNew, gap);
    TriedFrame(h, key, a, b, vvTried);
  }

  /** Rewriting the statistics of one entry. */
  function Touch(m: Man, id: Id, i: Info): Man {
    m.(mapInfo := m.mapInfo[id := i])
  }

  lemma TouchRandomOK(info: map<Id, Info>, vRandom: seq<Id>, id: Id, i: Info)
    requires RandomOK(info, vRandom) && id in info && i.randomPos == info[id].randomPos
    ensures RandomOK(info[id := i], vRandom)
  {
  }

  lemma TouchConsistent(h: Hashing, m: Man, id: Id, i: Info, gap: Gap)
    requires Consistent(h, m, gap) && id in m.mapInfo
    requires SameTables(m.mapInfo[id], i) && i.randomPos == m.mapInfo[id].randomPos
    ensures Consistent(h, Touch(m, id, i), gap)
  {
    var m' := Touch(m, id, i);
    TouchRandomOK(m.mapInfo, m.vRandom, id, i);
    SameEntriesTables(h, m.key, m.mapInfo, m'.mapInfo, m.mapAddr, m.vvNew, m.vvTried, m.nTried, m.nNew, gap);
  }

  // ---------------------------------------------------------------- the random order

  /** The two assertions of SwapRandom. */
  predicate Swappable(m: Man, p: int, q: int) {
    && 0 <= p < |m.vRandom| && 0 <= q < |m.vRandom|
    && m.vRandom[p] in m.mapInfo && m.vRandom[q] in m.mapInfo
  }

  function SwapRandom(m: Man, p: int, q: int): Man {
    if p == q || !Swappable(m, p, q) then m
    else
      var a, b := m.vRandom[p], m.vRandom[q];
      var info1 := m.mapInfo[a := m.mapInfo[a].(randomPos := q)];
      m.(mapInfo := info1[b := info1[b].(randomPos := p)], vRandom := m.vRandom[p := b][q := a])
  }

  lemma SwapRandomConsistent(h: Hashing, m: Man, p: nat, q: nat, gap: Gap)
    requires Consistent(h, m, gap) && p < |m.vRandom| && q < |m.vRandom|
    ensures Swappable(m, p, q)
    ensures Consistent(h, SwapRandom(m, p, q), gap)
    ensures SameEntries(m.mapInfo, SwapRandom(m, p, q).mapInfo)
  {
    var m' := SwapRandom(m, p, q);
    SwapRandomOK(m, p, q);
    SameEntriesTables(h, m.key, m.mapInfo, m'.mapInfo, m.mapAddr, m.vvNew, m.vvTried, m.nTried, m.nNew, gap);
  }

  lemma SwappedOK(info: map<Id, Info>, v: seq<Id>, p: nat, q: nat, info': map<Id, Info>, v': seq<Id>)
    requires RandomOK(info, v) && p < |v| && q < |v| && p != q
    requires |v'| == |v| && info'.Keys == info.Keys
    requires forall r :: 0 <= r < |v| ==> v'[r] == if r == p then v[q] else if r == q then v[p] else v[r]
    requires forall id :: id in info ==>
      info'[id].randomPos == if id == v[p] then q else if id == v[q] then p else info[id].randomPos
    ensures RandomOK(info', v')
  {
    assert info[v[p]].randomPos == p && info[v[q]].randomPos == q;
    forall id | id in info' ensures 0 <= info'[id].randomPos < |v'| && v'[info'[id].randomPos] == id {
      assert v[info[id].randomPos] == id;
    }
    forall r | 0 <= r < |v'| ensures v'[r] in info' && info'[v'[r]].randomPos == r {
      assert info[v[r]].randomPos == r;
    }
  }

  lemma SwapRandomOK(m: Man, p: nat, q: nat)
    requires RandomOK(m.mapInfo, m.vRandom) && p < |m.vRandom| && q < |m.vRandom|
    ensures RandomOK(SwapRandom(m, p, q).mapInfo, SwapRandom(m, p, q).vRandom)
    ensures SameEntries(m.mapInfo, SwapRandom(m, p, q).mapInfo)
  {
    if p != q {
      var m' := SwapRandom(m, p, q);
      assert Swappable(m, p, q);
      assert m.mapInfo[m.vRandom[p]].randomPos == p && m.mapInfo[m.vRandom[q]].randomPos == q;
      SwappedOK(m.mapInfo, m.vRandom, p, q, m'.mapInfo, m'.vRandom);
    }
  }

  // ---------------------------------------------------------------- one table at a time

  /** The tried buckets only see which ids are tried and what their services are. */
  lemma TriedFrame(h: Hashing, key: seq<nat>, a: map<Id, Info>, b: map<Id, Info>, vvTried: seq<seq<Id>>)
    requires TriedOK(h, key, a, vvTried)
    requires forall id :: id in a && a[id].inTried ==> id in b && b[id].inTried && b[id].svc == a[id].svc
    requires forall id :: id in b && b[id].inTried ==> id in a && a[id].inTried
    ensures TriedOK(h, key, b, vvTried)
    ensures TriedIds(a) == TriedIds(b)
  {
  }

  lemma AddrFrame(a: map<Id, Info>, b: map<Id, Info>, addr: map<NetAddr, Id>)
    requires AddrOK(a, addr) && a.Keys == b.Keys
    requires forall id :: id in a ==> b[id].svc == a[id].svc
    ensures AddrOK(b, addr)
  {
  }

  /** Only the entry of id changes, and it is neither tried before nor after. */
  lemma SetRefsFrames(h: Hashing, m: Man, id: Id, refs: int)
    requires RandomOK(m.mapInfo, m.vRandom) && AddrOK(m.mapInfo, m.mapAddr) && TriedOK(h, m.key, m.mapInfo, m.vvTried)
    requires id in m.mapInfo
    ensures var info := SetRefs(m, id, refs).mapInfo;
            && RandomOK(info, m.vRandom) && AddrOK(info, m.mapAddr) && TriedOK(h, m.key, info, m.vvTried)
            && TriedIds(info) == TriedIds(m.mapInfo)
  {
    var info := SetRefs(m, id, refs).mapInfo;
    TouchRandomOK(m.mapInfo, m.vRandom, id, info[id]);
    AddrFrame(m.mapInfo, info, m.mapAddr);
    TriedFrame(h, m.key, m.mapInfo, info, m.vvTried);
  }

  // ---------------------------------------------------------------- new-bucket membership

  lemma HoldingRemove(vvNew: seq<set<Id>>, b: nat, v: Id, x: Id)
    requires b < |vvNew| && v in vvNew[b]
    ensures var after := Holding(vvNew[b := vvNew[b] - {v}], x);
            && after == (if x == v then Holding(vvNew, x) - {b} else Holding(vvNew, x))
            && |after| == |Holding(vvNew, x)| - (if x == v then 1 else 0)
  {
    var after := Holding(vvNew[b := vvNew[b] - {v}], x);
    assert b in Holding(vvNew, v);
    assert after == if x == v then Holding(vvNew, x) - {b} else Holding(vvNew, x);
  }

  lemma HoldingInsert(vvNew: seq<set<Id>>, b: nat, v: Id, x: Id)
    requires b < |vvNew| && v !in vvNew[b]
    ensures var after := Holding(vvNew[b := vvNew[b] + {v}], x);
            && after == (if x == v then Holding(vvNew, x) + {b} else Holding(vvNew, x))
            && |after| == |Holding(vvNew, x)| + (if x == v then 1 else 0)
  {
    var after := Holding(vvNew[b := vvNew[b] + {v}], x);
    assert b !in Holding(vvNew, v);
    assert after == if x == v then Holding(vvNew, x) + {b} else Holding(vvNew, x);
  }

  // ---------------------------------------------------------------- creating an entry

  function NewInfo(a: Address, source: NetAddr, pos: nat): Info {
    Info(a.svc, a.services, a.nTime, source, 0, 0, 0, 0, false, pos)
  }

  /** Create: the entry exists but no table holds or counts it yet. */
  function Create(m: Man, a: Address, source: NetAddr): Man {
    m.(idCount := m.idCount + 1,
       mapInfo := m.mapInfo[m.idCount := NewInfo(a, source, |m.vRandom|)],
       mapAddr := m.mapAddr[a.svc.ip := m.idCount],
       vRandom := m.vRandom + [m.idCount])
  }

  lemma CreateConsistent(h: Hashing, m: Man, a: Address, source: NetAddr)
    requires Consistent(h, m, NoGap) && a.svc.ip !in m.mapAddr
    ensures Consistent(h, Create(m, a, source), Limbo(m.idCount))
  {
    var m' := Create(m, a, source);
    CreateTables(h, m, a, source);
    CreateRandomAddr(m, a, source);
  }

  lemma CreateRandomAddr(m: Man, a: Address, source: NetAddr)
    requires RandomOK(m.mapInfo, m.vRandom) && AddrOK(m.mapInfo, m.mapAddr)
    requires m.idCount !in m.mapInfo && a.svc.ip !in m.mapAddr
    ensures RandomOK(Create(m, a, source).mapInfo, Create(m, a, source).vRandom)
    ensures AddrOK(Create(m, a, source).mapInfo, Create(m, a, source).mapAddr)
  {
  }

  lemma CreateRefs(info: map<Id, Info>, vvNew: seq<set<Id>>, id: Id, i: Info)
    requires NewOK(info, vvNew, NoGap) && id !in info && !i.inTried && i.refCount == 0
    ensures NewOK(info[id := i], vvNew, Limbo(id)) && NewIds(info[id := i], Limbo(id)) == NewIds(info, NoGap)
  {
    forall b: nat | b < |vvNew| ensures id !in vvNew[b] {
      assert vvNew[b] <= info.Keys;
    }
    assert Holding(vvNew, id) == {};
  }

  lemma CreateTables(h: Hashing, m: Man, a: Address, source: NetAddr)
    requires NewOK(m.mapInfo, m.vvNew, NoGap) && TriedOK(h, m.key, m.mapInfo, m.vvTried)
    requires CountOK(m.mapInfo, m.nTried, m.nNew, NoGap) && m.idCount !in m.mapInfo
    ensures var m' := Create(m, a, source); var gap := Limbo(m.idCount);
            && NewOK(m'.mapInfo, m.vvNew, gap) && TriedOK(h, m.key, m'.mapInfo, m.vvTried)
            && CountOK(m'.mapInfo, m.nTried, m.nNew, gap)
  {
    CreateRefs(m.mapInfo, m.vvNew, m.idCount, NewInfo(a, source, |m.vRandom|));
    TriedFrame(h, m.key, m.mapInfo, Create(m, a, source).mapInfo, m.vvTried);
  }

  // ---------------------------------------------------------------- referencing an entry

  function SetRefs(m: Man, id: Id, refs: int): Man {
    if id !in m.mapInfo then m
    else m.(mapInfo := m.mapInfo[id := m.mapInfo[id].(refCount := refs)])
  }

  /** A created entry is counted and gets its first reference. */
  function CountNew(m: Man, id: Id): Man {
    SetRefs(m, id, 1).(nNew := m.nNew + 1)
  }

  lemma CountNewRefs(info: map<Id, Info>, vvNew: seq<set<Id>>, id: Id)
    requires NewOK(info, vvNew, Limbo(id))
    ensures var info' := info[id := info[id].(refCount := 1)];
            NewOK(info', vvNew, Owed(id)) && |NewIds(info', Owed(id))| == |NewIds(info, Limbo(id))| + 1
  {
    var info' := info[id := info[id].(refCount := 1)];
    assert RefOK(info[id], |Holding(vvNew, id)|, id, Limbo(id));
    assert id !in NewIds(info, Limbo(id));
    assert NewIds(info', Owed(id)) == NewIds(info, Limbo(id)) + {id};
  }

  lemma CountNewConsistent(h: Hashing, m: Man, id: Id)
    requires Consistent(h, m, Limbo(id))
    ensures Consistent(h, CountNew(m, id), Owed(id))
  {
    SetRefsFrames(h, m, id, 1);
    CountNewRefs(m.mapInfo, m.vvNew, id);
  }

  lemma AddRefRefs(info: map<Id, Info>, vvNew: seq<set<Id>>, id: Id)
    requires NewOK(info, vvNew, NoGap) && id in info && !info[id].inTried && info[id].refCount < NEW_BUCKETS_PER_ADDRESS
    ensures var info' := info[id := info[id].(refCount := info[id].refCount + 1)];
            NewOK(info', vvNew, Owed(id)) && NewIds(info', Owed(id)) == NewIds(info, NoGap)
  {
  }

  lemma AddRefConsistent(h: Hashing, m: Man, id: Id)
    requires Consistent(h, m, NoGap) && id in m.mapInfo && !m.mapInfo[id].inTried
    requires m.mapInfo[id].refCount < NEW_BUCKETS_PER_ADDRESS
    ensures Consistent(h, SetRefs(m, id, m.mapInfo[id].refCount + 1), Owed(id))
  {
    SetRefsFrames(h, m, id, m.mapInfo[id].refCount + 1);
    AddRefRefs(m.mapInfo, m.vvNew, id);
  }

  /** The owed reference is honoured: the bucket takes the id. */
  function InsertNew(m: Man, b: nat, id: Id): Man {
    if b < |m.vvNew| then m.(vvNew := m.vvNew[b := m.vvNew[b] + {id}]) else m
  }

  lemma InsertNewConsistent(h: Hashing, m: Man, b: nat, id: Id)
    requires Consistent(h, m, Owed(id)) && b < NEW_BUCKET_COUNT
    requires id !in m.vvNew[b] && |m.vvNew[b]| < NEW_BUCKET_SIZE
    ensures Consistent(h, InsertNew(m, b, id), NoGap)
  {
    var vvNew := InsertNew(m, b, id).vvNew;
    forall x | x in m.mapInfo ensures RefOK(m.mapInfo[x], |Holding(vvNew, x)|, x, NoGap) {
      HoldingInsert(m.vvNew, b, id, x);
      assert RefOK(m.mapInfo[x], |Holding(m.vvNew, x)|, x, Owed(id));
    }
    assert NewIds(m.mapInfo, NoGap) == NewIds(m.mapInfo, Owed(id));
  }

  // ---------------------------------------------------------------- dropping a reference

  /** Take the entry at the end of the random order out of it and out of the address index. */
  function PopLast(m: Man, id: Id): Man {
    if id !in m.mapInfo || |m.vRandom| == 0 then m
    else m.(vRandom := m.vRandom[..|m.vRandom| - 1], mapAddr := m.mapAddr - {m.mapInfo[id].svc.ip},
       mapInfo := m.mapInfo - {id}, nNew := m.nNew - 1)
  }

  /** Swap the entry to the end of the random order, then pop it. */
  function Forget(m: Man, id: Id): Man {
    if id !in m.mapInfo then m
    else PopLast(SwapRandom(m, m.mapInfo[id].randomPos, |m.vRandom| - 1), id)
  }

  function RemoveNew(vvNew: seq<set<Id>>, b: nat, id: Id): seq<set<Id>> {
    if b < |vvNew| then vvNew[b := vvNew[b] - {id}] else vvNew
  }

  function UnrefLast(m: Man, b: nat, id: Id): Man {
    Forget(SetRefs(m, id, 0), id).(vvNew := RemoveNew(m.vvNew, b, id))
  }

  function UnrefMore(m: Man, b: nat, id: Id): Man {
    if id !in m.mapInfo then m
    else SetRefs(m, id, m.mapInfo[id].refCount - 1).(vvNew := RemoveNew(m.vvNew, b, id))
  }

  /** One new bucket lets go of an id; the last reference takes the entry with it. */
  function Unref(m: Man, b: nat, id: Id): Man {
    if id in m.mapInfo && m.mapInfo[id].refCount - 1 == 0 then UnrefLast(m, b, id) else UnrefMore(m, b, id)
  }

  lemma PopRandomOK(info: map<Id, Info>, vRandom: seq<Id>, id: Id)
    requires RandomOK(info, vRandom) && id in info && info[id].randomPos == |vRandom| - 1
    ensures RandomOK(info - {id}, vRandom[..|vRandom| - 1])
  {
    var info', v := info - {id}, vRandom[..|vRandom| - 1];
    forall x | x in info' ensures 0 <= info'[x].randomPos < |v| && v[info'[x].randomPos] == x {
      assert vRandom[info[x].randomPos] == x;
    }
    forall p | 0 <= p < |v| ensures v[p] in info' && info'[v[p]].randomPos == p {
      assert info[vRandom[p]].randomPos == p;
    }
  }

  lemma RemoveAddrOK(info: map<Id, Info>, addr: map<NetAddr, Id>, id: Id)
    requires AddrOK(info, addr) && id in info
    ensures AddrOK(info - {id}, addr - {info[id].svc.ip})
  {
  }

  lemma SwapMoves(m: Man, p: nat, q: nat)
    requires Swappable(m, p, q)
    requires m.mapInfo[m.vRandom[p]].randomPos == p && (p != q ==> m.vRandom[p] != m.vRandom[q])
    ensures m.vRandom[p] in SwapRandom(m, p, q).mapInfo
    ensures SwapRandom(m, p, q).mapInfo[m.vRandom[p]].randomPos == q
    ensures |SwapRandom(m, p, q).vRandom| == |m.vRandom|
    ensures SwapRandom(m, p, q).mapAddr == m.mapAddr
  {
  }

  lemma PopEntry(m: Man, m1: Man, id: Id)
    requires AddrOK(m.mapInfo, m.mapAddr) && id in m.mapInfo && SameEntries(m.mapInfo, m1.mapInfo)
    requires m1.mapAddr == m.mapAddr && |m1.vRandom| > 0
    requires RandomOK(m1.mapInfo, m1.vRandom) && m1.mapInfo[id].randomPos == |m1.vRandom| - 1
    ensures RandomOK(PopLast(m1, id).mapInfo, PopLast(m1, id).vRandom)
    ensures AddrOK(PopLast(m1, id).mapInfo, PopLast(m1, id).mapAddr)
    ensures SameEntries(m.mapInfo - {id}, PopLast(m1, id).mapInfo)
  {
    PopRandomOK(m1.mapInfo, m1.vRandom, id);
    AddrFrame(m.mapInfo, m1.mapInfo, m.mapAddr);
    RemoveAddrOK(m1.mapInfo, m.mapAddr, id);
  }

  lemma ForgetRandomAddr(m: Man, id: Id)
    requires RandomOK(m.mapInfo, m.vRandom) && AddrOK(m.mapInfo, m.mapAddr) && id in m.mapInfo
    ensures RandomOK(Forget(m, id).mapInfo, Forget(m, id).vRandom)
    ensures AddrOK(Forget(m, id).mapInfo, Forget(m, id).mapAddr)
    ensures SameEntries(m.mapInfo - {id}, Forget(m, id).mapInfo)
  {
    var p, q := m.mapInfo[id].randomPos, |m.vRandom| - 1;
    SwapMoves(m, p, q);
    SwapRandomOK(m, p, q);
    PopEntry(m, SwapRandom(m, p, q), id);
  }

  /** The bucket's last reference to v goes; nobody else notices. */
  lemma DropLastRefs(info: map<Id, Info>, vvNew: seq<set<Id>>, b: nat, v: Id, gap: Gap)
    requires NewOK(info, vvNew, gap) && b < |vvNew| && v in vvNew[b] && v in info && info[v].refCount == 1
    requires (gap.NoGap? || gap.Owed?) && gap != Owed(v)
    ensures NewOK(info - {v}, vvNew[b := vvNew[b] - {v}], gap)
    ensures !info[v].inTried && |NewIds(info - {v}, gap)| == |NewIds(info, gap)| - 1
  {
    var info', vvNew' := info - {v}, vvNew[b := vvNew[b] - {v}];
    assert b in Holding(vvNew, v);
    assert RefOK(info[v], |Holding(vvNew, v)|, v, gap);
    HoldingRemove(vvNew, b, v, v);
    assert Holding(vvNew', v) == {};
    forall x | x in info' ensures RefOK(info'[x], |Holding(vvNew', x)|, x, gap) { HoldingRemove(vvNew, b, v, x); }
    forall c | 0 <= c < |vvNew'| ensures vvNew'[c] <= info'.Keys {
      assert c !in Holding(vvNew', v);
      assert vvNew'[c] <= vvNew[c] <= info.Keys;
    }
    assert v in NewIds(info, gap);
    assert NewIds(info', gap) == NewIds(info, gap) - {v};
  }

  lemma DropOneRef(info: map<Id, Info>, vvNew: seq<set<Id>>, b: nat, v: Id, gap: Gap)
    requires NewOK(info, vvNew, gap) && b < |vvNew| && v in vvNew[b] && v in info && info[v].refCount != 1
    requires (gap.NoGap? || gap.Owed?) && gap != Owed(v)
    ensures var info' := info[v := info[v].(refCount := info[v].refCount - 1)];
            NewOK(info', vvNew[b := vvNew[b] - {v}], gap) && NewIds(info', gap) == NewIds(info, gap)
  {
    var info', vvNew' := info[v := info[v].(refCount := info[v].refCount - 1)], vvNew[b := vvNew[b] - {v}];
    assert b in Holding(vvNew, v);
    assert RefOK(info[v], |Holding(vvNew, v)|, v, gap);
    forall x | x in info' ensures RefOK(info'[x], |Holding(vvNew', x)|, x, gap) { HoldingRemove(vvNew, b, v, x); }
  }

  /** SameEntries carries the new buckets over. */
  lemma NewFrame(a: map<Id, Info>, b: map<Id, Info>, vvNew: seq<set<Id>>, gap: Gap)
    requires SameEntries(a, b) && NewOK(a, vvNew, gap)
    ensures NewOK(b, vvNew, gap) && NewIds(a, gap) == NewIds(b, gap)
  {
  }

  /** What is left when the last reference goes: everything but the entry itself. */
  lemma UnrefLastEntries(m: Man, b: nat, v: Id)
    requires RandomOK(m.mapInfo, m.vRandom) && AddrOK(m.mapInfo, m.mapAddr)
    requires v in m.mapInfo && m.mapInfo[v].refCount == 1 && b < |m.vvNew|
    ensures var m' := UnrefLast(m, b, v);
            && RandomOK(m'.mapInfo, m'.vRandom) && AddrOK(m'.mapInfo, m'.mapAddr)
            && SameEntries(m.mapInfo - {v}, m'.mapInfo)
  {
    var m1 := SetRefs(m, v, 0);
    TouchRandomOK(m.mapInfo, m.vRandom, v, m1.mapInfo[v]);
    AddrFrame(m.mapInfo, m1.mapInfo, m.mapAddr);
    ForgetRandomAddr(m1, v);
    assert m1.mapInfo - {v} == m.mapInfo - {v};
  }

  lemma UnrefLastFields(m: Man, b: nat, v: Id)
    requires v in m.mapInfo && b < |m.vvNew| && |m.vRandom| > 0
    ensures var m' := UnrefLast(m, b, v);
            && m'.vvNew == RemoveNew(m.vvNew, b, v) && m'.vvTried == m.vvTried && m'.key == m.key
            && m'.nTried == m.nTried && m'.nNew == m.nNew - 1 && m'.idCount == m.idCount
  {
  }

  lemma WithoutEntryTried(h: Hashing, key: seq<nat>, a: map<Id, Info>, b: map<Id, Info>, vvTried: seq<seq<Id>>, v: Id)
    requires TriedOK(h, key, a, vvTried) && v in a && !a[v].inTried && SameEntries(a - {v}, b)
    ensures TriedOK(h, key, b, vvTried) && TriedIds(a) == TriedIds(b)
  {
    TriedFrame(h, key, a, b, vvTried);
  }

  lemma WithoutEntryConsistent(h: Hashing, m: Man, m': Man, b: nat, v: Id, gap: Gap)
    requires Consistent(h, m, gap) && b < NEW_BUCKET_COUNT && v in m.vvNew[b]
    requires v in m.mapInfo && m.mapInfo[v].refCount == 1
    requires (gap.NoGap? || gap.Owed?) && gap != Owed(v)
    requires RandomOK(m'.mapInfo, m'.vRandom) && AddrOK(m'.mapInfo, m'.mapAddr)
    requires SameEntries(m.mapInfo - {v}, m'.mapInfo)
    requires m'.vvNew == RemoveNew(m.vvNew, b, v) && m'.vvTried == m.vvTried && m'.key == m.key
    requires m'.nTried == m.nTried && m'.nNew == m.nNew - 1 && m'.idCount == m.idCount
    ensures Consistent(h, m', gap)
  {
    DropLastRefs(m.mapInfo, m.vvNew, b, v, gap);
    NewFrame(m.mapInfo - {v}, m'.mapInfo, m'.vvNew, gap);
    WithoutEntryTried(h, m.key, m.mapInfo, m'.mapInfo, m.vvTried, v);
    forall id | id in m'.mapInfo ensures id < m'.idCount { assert id in m.mapInfo - {v}; }
  }

  lemma UnrefLastConsistent(h: Hashing, m: Man, b: nat, v: Id, gap: Gap)
    requires Consistent(h, m, gap) && b < NEW_BUCKET_COUNT && v in m.vvNew[b]
    requires v in m.mapInfo && m.mapInfo[v].refCount == 1
    requires (gap.NoGap? || gap.Owed?) && gap != Owed(v)
    ensures Consistent(h, UnrefLast(m, b, v), gap)
  {
    UnrefLastEntries(m, b, v);
    UnrefLastFields(m, b, v);
    WithoutEntryConsistent(h, m, UnrefLast(m, b, v), b, v, gap);
  }

  lemma UnrefMoreConsistent(h: Hashing, m: Man, b: nat, v: Id, gap: Gap)
    requires Consistent(h, m, gap) && b < NEW_BUCKET_COUNT && v in m.vvNew[b]
    requires v in m.mapInfo && m.mapInfo[v].refCount != 1
    requires (gap.NoGap? || gap.Owed?) && gap != Owed(v)
    ensures Consistent(h, UnrefMore(m, b, v), gap)
  {
    assert b in Holding(m.vvNew, v);
    assert RefOK(m.mapInfo[v], |Holding(m.vvNew, v)|, v, gap);
    SetRefsFrames(h, m, v, m.mapInfo[v].refCount - 1);
    DropOneRef(m.mapInfo, m.vvNew, b, v, gap);
  }

  /** Dropping a reference keeps the tables, also while another id's reference is owed. */
  lemma UnrefConsistent(h: Hashing, m: Man, b: nat, v: Id, gap: Gap)
    requires Consistent(h, m, gap) && b < NEW_BUCKET_COUNT && v in m.vvNew[b]
    requires (gap.NoGap? || gap.Owed?) && gap != Owed(v)
    ensures v in m.mapInfo && Consistent(h, Unref(m, b, v), gap)
    ensures Unref(m, b, v).vvNew == RemoveNew(m.vvNew, b, v)
  {
    assert m.vvNew[b] <= m.mapInfo.Keys;
    if m.mapInfo[v].refCount == 1 {
      UnrefLastConsistent(h, m, b, v, gap);
    } else {
      UnrefMoreConsistent(h, m, b, v, gap);
    }
  }
}
