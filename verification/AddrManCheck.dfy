/**
 The address manager's own self-check.  It accepts exactly the tables that
 satisfy Checked, and those are the consistent ones once the few things the
 self-check does not look at are added.
 */
module AddrManCheck {
  import opened AddrManModel
  import opened AddrMan
  import opened Iteration

  /** What reading an absent key of the address index yields. */
  function LookUp(addr: map<NetAddr, Id>, a: NetAddr): Id {
    if a in addr then addr[a] else 0
  }

  ghost predicate EntryChecked(m: Man, id: Id)
    requires id in m.mapInfo
  {
    var i := m.mapInfo[id];
    && (if i.inTried then i.lastSuccess != 0 && i.refCount == 0 else 1 <= i.refCount <= NEW_BUCKETS_PER_ADDRESS)
    && LookUp(m.mapAddr, i.svc.ip) == id
    && 0 <= i.randomPos < |m.vRandom| && m.vRandom[i.randomPos] == id
    && i.lastTry >= 0 && i.lastSuccess >= 0
  }

  /** The first test an entry fails, 0 if none. */
  ghost function EntryCode(m: Man, id: Id): int
    requires id in m.mapInfo
  {
    var i := m.mapInfo[id];
    if i.inTried && i.lastSuccess == 0 then -1
    else if i.inTried && i.refCount != 0 then -2
    else if !i.inTried && !(0 <= i.refCount <= 4) then -3
    else if !i.inTried && i.refCount == 0 then -4
    else if LookUp(m.mapAddr, i.svc.ip) != id then -5
    else if !(0 <= i.randomPos < |m.vRandom| && m.vRandom[i.randomPos] == id) then -14
    else if i.lastTry < 0 then -6
    else if i.lastSuccess < 0 then -8
    else 0
  }

  /** The loop over the entries comes to id. */
  ghost predicate ComesTo(m: Man, id: Id) {
    id in m.mapInfo && forall x :: x in m.mapInfo && x < id ==> EntryCode(m, x) == 0
  }

  /** And looks its address up, which makes an absent one known. */
  ghost predicate LooksUp(m: Man, id: Id) {
    ComesTo(m, id) && !(-4 <= EntryCode(m, id) <= -1)
  }

  ghost function Flat<T>(vv: seq<seq<T>>): seq<T> {
    if vv == [] then [] else Flat(vv[..|vv| - 1]) + vv[|vv| - 1]
  }

  /** The buckets list the given ids, each exactly once. */
  ghost predicate ListsOnce(vv: seq<seq<Id>>, ids: set<Id>) {
    Distinct(Flat(vv)) && Elements(Flat(vv)) == ids
  }

  ghost function Below(vvNew: seq<set<Id>>, x: Id, n: nat): set<nat> {
    set b: nat | b < n && b < |vvNew| && x in vvNew[b]
  }

  /** The buckets hold the given ids, each in as many buckets as it counts. */
  ghost predicate HeldExactly(vvNew: seq<set<Id>>, counts: map<Id, int>) {
    && (forall b :: 0 <= b < |vvNew| ==> vvNew[b] <= counts.Keys)
    && (forall x :: x in counts ==> counts[x] == |Holding(vvNew, x)|)
  }

  /** No bucket holds an id that is not counted, or more often than it is. */
  ghost predicate HeldAtMost(vvNew: seq<set<Id>>, counts: map<Id, int>) {
    && (forall b :: 0 <= b < |vvNew| ==> vvNew[b] <= counts.Keys)
    && (forall x :: x in counts ==> |Holding(vvNew, x)| <= counts[x])
  }

  ghost function RefCounts(info: map<Id, Info>): map<Id, int> {
    map id | id in info && !info[id].inTried :: info[id].refCount
  }

  ghost predicate Checked(m: Man) {
    && |m.vRandom| == m.nTried + m.nNew
    && (forall id :: id in m.mapInfo ==> EntryChecked(m, id))
    && |TriedIds(m.mapInfo)| == m.nTried && |RefCounts(m.mapInfo)| == m.nNew
    && ListsOnce(m.vvTried, TriedIds(m.mapInfo))
    && HeldExactly(m.vvNew, RefCounts(m.mapInfo))
  }

  /** The first test of the tables that fails. */
  ghost predicate TablesDiagnosed(m: Man, code: int) {
    var tried, counts, listed := TriedIds(m.mapInfo), RefCounts(m.mapInfo), Flat(m.vvTried);
    if |tried| != m.nTried then code == -9
    else if |counts| != m.nNew then code == -10
    else if !(Distinct(listed) && Elements(listed) <= tried) then code == -11
    else if !HeldAtMost(m.vvNew, counts) then code == -12
    else if Elements(listed) != tried then code == -13
    else if exists x :: x in counts && |Holding(m.vvNew, x)| < counts[x] then code == -15
    else code == 0
  }

  /** The answer of the self-check: the first test that fails, entry by entry and then table by table. */
  ghost predicate Diagnosed(m: Man, code: int) {
    if |m.vRandom| != m.nTried + m.nNew then code == -7
    else if exists id :: id in m.mapInfo && EntryCode(m, id) != 0 then
      exists id :: ComesTo(m, id) && EntryCode(m, id) == code && code != 0
    else TablesDiagnosed(m, code)
  }

  // ---------------------------------------------------------------- the loop over the entries

  /** Both tables collected from the entries visited so far. */
  ghost predicate Collected(info: map<Id, Info>, todo: set<Id>, tried: set<Id>, counts: map<Id, int>) {
    && tried == (set id | id in info && id !in todo && info[id].inTried)
    && counts == (map id | id in info && id !in todo && !info[id].inTried :: info[id].refCount)
  }

  /** Reading the address index has only ever added absent keys with value 0. */
  ghost predicate SameLookUps(a: map<NetAddr, Id>, b: map<NetAddr, Id>) {
    forall x: NetAddr :: LookUp(a, x) == LookUp(b, x)
  }

  /** The checks of one entry; the address index is read, and thereby filled, on the way. */
  method CheckEntry(m: Man, n: Id, addr: map<NetAddr, Id>) returns (code: int, addr': map<NetAddr, Id>)
    requires n in m.mapInfo && SameLookUps(m.mapAddr, addr)
    ensures code == 0 <==> EntryChecked(m, n)
    ensures code == EntryCode(m, n)
    ensures addr' == if -4 <= code <= -1 then addr else addr[m.mapInfo[n].svc.ip := LookUp(addr, m.mapInfo[n].svc.ip)]
  {
    var info := m.mapInfo[n];
    if info.inTried {
      if info.lastSuccess == 0 { return -1, addr; }
      if info.refCount != 0 { return -2, addr; }
    } else {
      if info.refCount < 0 || info.refCount > NEW_BUCKETS_PER_ADDRESS { return -3, addr; }
      if info.refCount == 0 { return -4, addr; }
    }
    addr' := addr[info.svc.ip := LookUp(addr, info.svc.ip)];
    if addr'[info.svc.ip] != n { return -5, addr'; }
    if info.randomPos < 0 || info.randomPos >= |m.vRandom| || m.vRandom[info.randomPos] != n { return -14, addr'; }
    if info.lastTry < 0 { return -6, addr'; }
    if info.lastSuccess < 0 { return -8, addr'; }
    code := 0;
  }

  /** The addresses of the entries that are not still to come. */
  ghost function Addresses(m: Man, todo: set<Id>): set<NetAddr> {
    set id | id in m.mapInfo && id !in todo :: m.mapInfo[id].svc.ip
  }

  /** The addresses looked up. */
  ghost function LookedUp(m: Man): set<NetAddr> {
    set id | id in m.mapInfo && LooksUp(m, id) :: m.mapInfo[id].svc.ip
  }

  /** What is no longer to come has passed, and comes first. */
  ghost predicate Passed(m: Man, todo: set<Id>) {
    && todo <= m.mapInfo.Keys
    && (forall id :: id in m.mapInfo && id !in todo ==> EntryCode(m, id) == 0)
    && (forall x, y :: x in m.mapInfo && x !in todo && y in todo ==> x < y)
  }

  lemma PassedOn(m: Man, todo: set<Id>, n: Id)
    requires Passed(m, todo) && n in todo && forall y :: y in todo ==> n <= y
    ensures ComesTo(m, n)
    ensures EntryCode(m, n) == 0 ==> Passed(m, todo - {n})
    ensures Addresses(m, todo - {n}) == Addresses(m, todo) + {m.mapInfo[n].svc.ip}
  {
    hide EntryCode;
  }

  lemma AllLookedUp(m: Man)
    requires Passed(m, {})
    ensures LookedUp(m) == Addresses(m, {})
    ensures forall id :: id in m.mapInfo ==> EntryCode(m, id) == 0
  {
    hide EntryCode;
    assert forall id :: id in m.mapInfo ==> LooksUp(m, id);
  }

  lemma StoppedAt(m: Man, todo: set<Id>, n: Id)
    requires Passed(m, todo) && n in todo && EntryCode(m, n) != 0 && forall y :: y in todo ==> n <= y
    ensures LookedUp(m) == Addresses(m, todo) + if -4 <= EntryCode(m, n) <= -1 then {} else {m.mapInfo[n].svc.ip}
  {
    hide EntryCode;
    forall id | id in m.mapInfo
      ensures LooksUp(m, id) <==> id !in todo || (id == n && !(-4 <= EntryCode(m, n) <= -1))
    {
      if id in todo && id != n { assert n < id; }
    }
  }

  lemma CheckedIffCode(m: Man, id: Id)
    requires id in m.mapInfo
    ensures EntryChecked(m, id) <==> EntryCode(m, id) == 0
  {
  }

  method CheckEntries(m: Man) returns (code: int, tried: set<Id>, counts: map<Id, int>, addr: map<NetAddr, Id>)
    ensures code == 0 <==> forall id :: id in m.mapInfo ==> EntryChecked(m, id)
    ensures code == 0 ==> tried == TriedIds(m.mapInfo) && counts == RefCounts(m.mapInfo)
    ensures code == 0 ==> forall id :: id in m.mapInfo ==> EntryCode(m, id) == 0
    ensures code != 0 ==> exists id :: ComesTo(m, id) && EntryCode(m, id) == code
    ensures SameLookUps(m.mapAddr, addr) && addr.Keys == m.mapAddr.Keys + LookedUp(m)
  {
    hide EntryChecked, EntryCode, ComesTo, Passed, LookedUp, Addresses;
    forall id | id in m.mapInfo ensures EntryChecked(m, id) <==> EntryCode(m, id) == 0 { CheckedIffCode(m, id); }
    code, tried, counts, addr := 0, {}, map[], m.mapAddr;
    var todo := m.mapInfo.Keys;
    NonePassed(m);
    while todo != {}
      invariant code == 0 && todo <= m.mapInfo.Keys && Passed(m, todo)
      invariant Collected(m.mapInfo, todo, tried, counts)
      invariant SameLookUps(m.mapAddr, addr) && addr.Keys == m.mapAddr.Keys + Addresses(m, todo)
      decreases todo
    {
      var n := Least(todo);
      PassedOn(m, todo, n);
      code, addr := CheckEntry(m, n, addr);
      if code != 0 {
        StoppedAt(m, todo, n);
        return;
      }
      if m.mapInfo[n].inTried {
        tried := tried + {n};
      } else {
        counts := counts[n := m.mapInfo[n].refCount];
      }
      todo := todo - {n};
    }
    AllLookedUp(m);
  }

  lemma NonePassed(m: Man)
    ensures Passed(m, m.mapInfo.Keys) && Addresses(m, m.mapInfo.Keys) == {}
  {
  }

  // ---------------------------------------------------------------- the loop over the tried buckets

  lemma {:induction false} FlatPrefix<T>(vv: seq<seq<T>>, n: nat)
    requires n <= |vv|
    ensures Flat(vv[..n]) <= Flat(vv)
  {
    if n < |vv| {
      FlatPrefix(vv[..|vv| - 1], n);
      assert vv[..|vv| - 1][..n] == vv[..n];
    } else {
      assert vv[..n] == vv;
    }
  }

  lemma FlatPosition<T>(vv: seq<seq<T>>, n: nat, k: nat)
    requires n < |vv| && k <= |vv[n]|
    ensures Flat(vv[..n]) + vv[n][..k] <= Flat(vv)
    ensures k == |vv[n]| ==> Flat(vv[..n]) + vv[n][..k] == Flat(vv[..n + 1])
  {
    FlatPrefix(vv, n + 1);
    assert vv[..n + 1][..n] == vv[..n];
    assert Flat(vv[..n + 1]) == Flat(vv[..n]) + vv[n];
    assert vv[n] == vv[n][..k] + vv[n][k..];
  }

  lemma Refused(s: seq<Id>, x: Id, all: seq<Id>, ids: set<Id>)
    requires s + [x] <= all && x !in ids - Elements(s)
    ensures !(Distinct(all) && Elements(all) <= ids)
  {
    assert all[|s|] == x;
    if x in s {
      var i :| 0 <= i < |s| && s[i] == x;
      assert all[i] == x;
    }
  }

  lemma NothingLeft<T>(a: set<T>, b: set<T>)
    requires b <= a
    ensures a - b == {} <==> a == b
  {
    if a - b == {} {
      assert forall x :: x in a && x !in b ==> x in a - b;
    }
  }

  /** Every listed id is struck off; what is struck off twice or was never there is refused. */
  method CheckTried(ids: set<Id>, vvTried: seq<seq<Id>>) returns (ok: bool, left: set<Id>)
    ensures ok && left == {} <==> ListsOnce(vvTried, ids)
    ensures ok <==> Distinct(Flat(vvTried)) && Elements(Flat(vvTried)) <= ids
    ensures ok ==> left == ids - Elements(Flat(vvTried))
  {
    left := ids;
    var n := 0;
    while n < |vvTried|
      invariant 0 <= n <= |vvTried|
      invariant Distinct(Flat(vvTried[..n])) && Elements(Flat(vvTried[..n])) <= ids
      invariant left == ids - Elements(Flat(vvTried[..n]))
    {
      var vTried, k := vvTried[n], 0;
      ghost var seen := Flat(vvTried[..n]);
      while k < |vTried|
        invariant 0 <= k <= |vTried|
        invariant seen == Flat(vvTried[..n]) + vTried[..k]
        invariant Distinct(seen) && Elements(seen) <= ids && left == ids - Elements(seen)
      {
        FlatPosition(vvTried, n, k + 1);
        assert vTried[..k + 1] == vTried[..k] + [vTried[k]];
        assert seen + [vTried[k]] == Flat(vvTried[..n]) + vTried[..k + 1];
        if vTried[k] !in left {
          Refused(seen, vTried[k], Flat(vvTried), ids);
          return false, left;
        }
        left := left - {vTried[k]};
        seen := seen + [vTried[k]];
        k := k + 1;
      }
      FlatPosition(vvTried, n, k);
      n := n + 1;
    }
    ok := true;
    assert vvTried[..n] == vvTried;
    NothingLeft(ids, Elements(Flat(vvTried)));
  }

  // ---------------------------------------------------------------- the loop over the new buckets

  /** The counts after each member of a bucket is counted down, and removed at zero. */
  function Spent(left: map<Id, int>, bucket: set<Id>): map<Id, int> {
    map x | x in left && (x in bucket ==> left[x] != 1) :: if x in bucket then left[x] - 1 else left[x]
  }

  method CheckNewBucket(left: map<Id, int>, bucket: set<Id>) returns (ok: bool, rest: map<Id, int>)
    ensures ok <==> bucket <= left.Keys
    ensures ok ==> rest == Spent(left, bucket)
  {
    rest := left;
    var todo := bucket;
    assert rest == Spent(left, bucket - todo);
    while todo != {}
      invariant todo <= bucket && bucket - todo <= left.Keys
      invariant rest == Spent(left, bucket - todo)
      decreases todo
    {
      var x := Least(todo);
      if x !in rest {
        assert x !in bucket - todo;
        return false, rest;
      }
      rest := rest[x := rest[x] - 1];
      if rest[x] == 0 {
        rest := rest - {x};
      }
      assert bucket - (todo - {x}) == bucket - todo + {x};
      todo := todo - {x};
    }
    ok := true;
    assert bucket - todo == bucket;
  }

  lemma BelowStep(vvNew: seq<set<Id>>, x: Id, n: nat)
    requires n < |vvNew|
    ensures |Below(vvNew, x, n + 1)| == |Below(vvNew, x, n)| + if x in vvNew[n] then 1 else 0
  {
    assert Below(vvNew, x, n + 1) == Below(vvNew, x, n) + if x in vvNew[n] then {n} else {};
  }

  lemma BelowAll(vvNew: seq<set<Id>>, x: Id, n: nat)
    ensures |Below(vvNew, x, n)| <= |Holding(vvNew, x)|
    ensures n >= |vvNew| ==> Below(vvNew, x, n) == Holding(vvNew, x)
  {
    assert Holding(vvNew, x) == Below(vvNew, x, n) + (Holding(vvNew, x) - Below(vvNew, x, n));
  }

  /** What is left of the counts after the first n buckets. */
  ghost predicate CountedDown(counts: map<Id, int>, vvNew: seq<set<Id>>, n: nat, left: map<Id, int>) {
    && (forall b :: 0 <= b < n && b < |vvNew| ==> vvNew[b] <= counts.Keys)
    && (forall x :: x in counts ==> |Below(vvNew, x, n)| <= counts[x])
    && left.Keys <= counts.Keys
    && (forall x :: x in counts ==> (x in left <==> |Below(vvNew, x, n)| != counts[x]))
    && (forall x :: x in left ==> left[x] == counts[x] - |Below(vvNew, x, n)|)
  }

  lemma Outside<T>(a: set<T>, b: set<T>) returns (x: T)
    requires !(a <= b)
    ensures x in a && x !in b
  {
    x :| x in a && x !in b;
  }

  lemma CountedDownStep(counts: map<Id, int>, vvNew: seq<set<Id>>, n: nat, left: map<Id, int>)
    requires n < |vvNew| && CountedDown(counts, vvNew, n, left)
    ensures vvNew[n] <= left.Keys ==> CountedDown(counts, vvNew, n + 1, Spent(left, vvNew[n]))
    ensures !(vvNew[n] <= left.Keys) ==> !HeldAtMost(vvNew, counts)
  {
    if vvNew[n] <= left.Keys {
      forall x | x in counts ensures |Below(vvNew, x, n + 1)| == |Below(vvNew, x, n)| + if x in vvNew[n] then 1 else 0 {
        BelowStep(vvNew, x, n);
      }
    } else {
      var x := Outside(vvNew[n], left.Keys);
      BelowStep(vvNew, x, n);
      BelowAll(vvNew, x, n + 1);
    }
  }

  method CheckNew(counts: map<Id, int>, vvNew: seq<set<Id>>) returns (ok: bool, left: map<Id, int>)
    requires forall x :: x in counts ==> counts[x] > 0
    ensures ok && left == map[] <==> HeldExactly(vvNew, counts)
    ensures ok <==> HeldAtMost(vvNew, counts)
    ensures ok ==> left.Keys == set x | x in counts && |Holding(vvNew, x)| < counts[x]
  {
    left := counts;
    var n := 0;
    assert forall x :: x in counts ==> Below(vvNew, x, 0) == {};
    while n < |vvNew|
      invariant 0 <= n <= |vvNew|
      invariant CountedDown(counts, vvNew, n, left)
    {
      CountedDownStep(counts, vvNew, n, left);
      ok, left := CheckNewBucket(left, vvNew[n]);
      if !ok {
        return;
      }
      n := n + 1;
    }
    ok := true;
    forall x | x in counts ensures Below(vvNew, x, n) == Holding(vvNew, x) {
      BelowAll(vvNew, x, n);
    }
    assert left == map[] <==> left.Keys == {};
    if left.Keys != {} {
      var x := Member(left.Keys);
      assert counts[x] != |Holding(vvNew, x)|;
    }
  }

  // ---------------------------------------------------------------- the whole check

  lemma NoneShort(counts: map<Id, int>, vvNew: seq<set<Id>>, short: set<Id>)
    requires |short| == 0 && short == set x | x in counts && |Holding(vvNew, x)| < counts[x]
    ensures forall x :: x in counts ==> !(|Holding(vvNew, x)| < counts[x])
  {
    forall x | x in counts ensures !(|Holding(vvNew, x)| < counts[x]) {
      assert x in short <==> |Holding(vvNew, x)| < counts[x];
    }
  }

  /** The tests of the tables, with what was collected from the entries. */
  method CheckTables(m: Man, tried: set<Id>, counts: map<Id, int>) returns (code: int)
    requires tried == TriedIds(m.mapInfo) && counts == RefCounts(m.mapInfo)
    requires forall x :: x in counts ==> counts[x] > 0
    ensures TablesDiagnosed(m, code)
    ensures code == 0 <==> |tried| == m.nTried && |counts| == m.nNew
                           && ListsOnce(m.vvTried, tried) && HeldExactly(m.vvNew, counts)
  {
    hide ListsOnce, HeldExactly, HeldAtMost, TriedIds, RefCounts, Holding, Flat, Distinct;
    if |tried| != m.nTried { return -9; }
    if |counts| != m.nNew { return -10; }
    var okTried, leftTried := CheckTried(tried, m.vvTried);
    if !okTried { return -11; }
    var okNew, leftNew := CheckNew(counts, m.vvNew);
    if !okNew { return -12; }
    NothingLeft(tried, Elements(Flat(m.vvTried)));
    if |leftTried| != 0 { return -13; }
    if |leftNew| != 0 {
      var x := Member(leftNew.Keys);
      return -15;
    }
    NoneShort(counts, m.vvNew, leftNew.Keys);
    code := 0;
  }

  /** Check_: zero exactly for the tables that pass, else the code of the first test that fails. */
  method Check(m: Man) returns (code: int, addr: map<NetAddr, Id>)
    ensures code == 0 <==> Checked(m)
    ensures Diagnosed(m, code)
    ensures |m.vRandom| == m.nTried + m.nNew ==> addr.Keys == m.mapAddr.Keys + LookedUp(m)
    ensures SameLookUps(m.mapAddr, addr)
    ensures (forall id :: id in m.mapInfo ==> m.mapInfo[id].svc.ip in m.mapAddr) ==> addr == m.mapAddr
  {
    hide ListsOnce, HeldExactly, EntryChecked, EntryCode, TablesDiagnosed, TriedIds, RefCounts, LookedUp,
         SameLookUps;
    if |m.vRandom| != m.nTried + m.nNew {
      SameAsItself(m.mapAddr);
      return -7, m.mapAddr;
    }
    var tried, counts;
    code, tried, counts, addr := CheckEntries(m);
    SameIndex(m, addr);
    if code != 0 { return; }
    PositiveCounts(m);
    code := CheckTables(m, tried, counts);
  }

  lemma SameAsItself(addr: map<NetAddr, Id>)
    ensures SameLookUps(addr, addr)
  {
  }

  lemma SameIndex(m: Man, addr: map<NetAddr, Id>)
    requires SameLookUps(m.mapAddr, addr) && addr.Keys == m.mapAddr.Keys + LookedUp(m)
    ensures (forall id :: id in m.mapInfo ==> m.mapInfo[id].svc.ip in m.mapAddr) ==> addr == m.mapAddr
  {
    hide EntryCode, ComesTo;
    if forall id :: id in m.mapInfo ==> m.mapInfo[id].svc.ip in m.mapAddr {
      assert LookedUp(m) <= m.mapAddr.Keys;
      forall a | a in addr ensures a in m.mapAddr && addr[a] == m.mapAddr[a] {
        assert LookUp(m.mapAddr, a) == LookUp(addr, a);
      }
    }
  }

  lemma PositiveCounts(m: Man)
    requires forall id :: id in m.mapInfo ==> EntryChecked(m, id)
    ensures forall x :: x in RefCounts(m.mapInfo) ==> RefCounts(m.mapInfo)[x] > 0
  {
  }

  // ---------------------------------------------------------------- the check and the invariant

  /** What the self-check does not look at. */
  ghost predicate Unseen(h: Hashing, m: Man) {
    && (forall id :: id in m.mapInfo ==> id < m.idCount)
    && (0 in m.mapInfo ==> m.mapInfo[0].svc.ip in m.mapAddr)
    && (forall a :: a in m.mapAddr ==> m.mapAddr[a] in m.mapInfo && m.mapInfo[m.mapAddr[a]].svc.ip == a)
    && |m.vvTried| == TRIED_BUCKET_COUNT && |m.vvNew| == NEW_BUCKET_COUNT
    && (forall b :: 0 <= b < |m.vvTried| ==> |m.vvTried[b]| <= TRIED_BUCKET_SIZE)
    && (forall b :: 0 <= b < |m.vvNew| ==> |m.vvNew[b]| <= NEW_BUCKET_SIZE)
    && (forall b, p, id :: TriedAt(m.vvTried, b, p, id) && id in m.mapInfo ==>
          TriedBucket(h, m.key, m.mapInfo[id].svc) == b)
  }

  /** Of a table that passes, only entry 0 can be missing from the address index. */
  lemma OnlyZeroUnindexed(m: Man)
    requires Checked(m)
    ensures (forall id :: id in m.mapInfo ==> m.mapInfo[id].svc.ip in m.mapAddr)
       <==> (0 in m.mapInfo ==> m.mapInfo[0].svc.ip in m.mapAddr)
  {
    hide ListsOnce, HeldExactly;
    forall id | id in m.mapInfo && id != 0 ensures m.mapInfo[id].svc.ip in m.mapAddr {
      assert EntryChecked(m, id);
    }
  }

  /** Where an element of the concatenation comes from. */
  lemma {:induction false} FlatHas(vv: seq<seq<Id>>, k: nat) returns (b: nat, p: nat)
    requires k < |Flat(vv)|
    ensures TriedAt(vv, b, p, Flat(vv)[k])
    ensures k == |Flat(vv[..b])| + p
  {
    var rest := vv[..|vv| - 1];
    if k < |Flat(rest)| {
      b, p := FlatHas(rest, k);
      assert rest[..b] == vv[..b];
    } else {
      b, p := |rest|, k - |Flat(rest)|;
    }
  }

  /** Where an element of a bucket goes to. */
  lemma FlatAt(vv: seq<seq<Id>>, b: nat, p: nat)
    requires b < |vv| && p < |vv[b]|
    ensures |Flat(vv[..b])| + p < |Flat(vv)| && Flat(vv)[|Flat(vv[..b])| + p] == vv[b][p]
    ensures |Flat(vv[..b])| + |vv[b]| == |Flat(vv[..b + 1])|
  {
    FlatPosition(vv, b, p + 1);
    FlatPosition(vv, b, |vv[b]|);
    var s := Flat(vv[..b]) + vv[b][..p + 1];
    assert s[|Flat(vv[..b])| + p] == vv[b][p];
  }

  lemma TriedListedOnce(h: Hashing, key: seq<nat>, info: map<Id, Info>, vvTried: seq<seq<Id>>)
    requires TriedOK(h, key, info, vvTried)
    ensures ListsOnce(vvTried, TriedIds(info))
  {
    var all := Flat(vvTried);
    forall i, j | 0 <= i < j < |all| ensures all[i] != all[j] {
      var b, p := FlatHas(vvTried, i);
      var c, q := FlatHas(vvTried, j);
    }
    forall x ensures x in Elements(all) <==> x in TriedIds(info) {
      if x in all {
        var k :| 0 <= k < |all| && all[k] == x;
        var b, p := FlatHas(vvTried, k);
      }
      if x in TriedIds(info) {
        var b := TriedBucket(h, key, info[x].svc);
        var p :| 0 <= p < |vvTried[b]| && vvTried[b][p] == x;
        FlatAt(vvTried, b, p);
      }
    }
  }

  lemma ListedOnceTried(h: Hashing, m: Man)
    requires ListsOnce(m.vvTried, TriedIds(m.mapInfo)) && Unseen(h, m)
    ensures TriedOK(h, m.key, m.mapInfo, m.vvTried)
  {
    var vv, all := m.vvTried, Flat(m.vvTried);
    forall b, p, id | TriedAt(vv, b, p, id)
      ensures id in m.mapInfo && m.mapInfo[id].inTried
    {
      FlatAt(vv, b, p);
      assert id in Elements(all);
    }
    forall b, p, q, id | TriedAt(vv, b, p, id) && TriedAt(vv, b, q, id) ensures p == q {
      FlatAt(vv, b, p);
      FlatAt(vv, b, q);
    }
    forall id | id in m.mapInfo && m.mapInfo[id].inTried ensures id in vv[TriedBucket(h, m.key, m.mapInfo[id].svc)] {
      assert id in Elements(all);
      var k :| 0 <= k < |all| && all[k] == id;
      var b, p := FlatHas(vv, k);
    }
  }

  lemma HeldRefs(info: map<Id, Info>, vvNew: seq<set<Id>>)
    requires NewOK(info, vvNew, NoGap)
    ensures HeldExactly(vvNew, RefCounts(info))
  {
    forall b | 0 <= b < |vvNew| ensures vvNew[b] <= RefCounts(info).Keys {
      forall x | x in vvNew[b] ensures x in RefCounts(info) {
        HeldUntried(info, vvNew, b, x, NoGap);
      }
    }
    forall x | x in RefCounts(info) ensures RefCounts(info)[x] == |Holding(vvNew, x)| {
      assert RefOK(info[x], |Holding(vvNew, x)|, x, NoGap);
    }
  }

  lemma RefsHeld(h: Hashing, m: Man)
    requires HeldExactly(m.vvNew, RefCounts(m.mapInfo)) && Unseen(h, m)
    requires forall id :: id in m.mapInfo ==> EntryChecked(m, id)
    ensures NewOK(m.mapInfo, m.vvNew, NoGap)
  {
    forall id | id in m.mapInfo ensures RefOK(m.mapInfo[id], |Holding(m.vvNew, id)|, id, NoGap) {
      assert EntryChecked(m, id);
      if m.mapInfo[id].inTried {
        assert forall b :: 0 <= b < |m.vvNew| ==> m.vvNew[b] <= RefCounts(m.mapInfo).Keys;
        assert Holding(m.vvNew, id) == {};
      } else {
        assert id in RefCounts(m.mapInfo);
      }
    }
    forall b | 0 <= b < |m.vvNew| ensures m.vvNew[b] <= m.mapInfo.Keys {
      assert m.vvNew[b] <= RefCounts(m.mapInfo).Keys;
    }
  }

  /** A sequence has at most as many elements as places, and as many only without repetition. */
  lemma {:induction false} ElementsCard<T>(s: seq<T>)
    ensures |Elements(s)| <= |s|
    ensures |Elements(s)| == |s| ==> Distinct(s)
  {
    if s == [] {
      assert Elements(s) == {};
    } else {
      ElementsCard(s[1..]);
      assert Elements(s) == Elements(s[1..]) + {s[0]};
      if |Elements(s)| == |s| {
        assert s[0] !in Elements(s[1..]);
        forall i, j | 0 <= i < j < |s| ensures s[i] != s[j] {
          assert s[j] == s[1..][j - 1] && (i > 0 ==> s[i] == s[1..][i - 1]);
        }
      }
    }
  }

  /** A random order that is as long as the table, and has a place for every entry, has nothing else. */
  lemma OrderFilled(info: map<Id, Info>, vRandom: seq<Id>)
    requires |vRandom| == |info|
    requires forall id :: id in info ==> 0 <= info[id].randomPos < |vRandom| && vRandom[info[id].randomPos] == id
    ensures RandomOK(info, vRandom)
  {
    assert info.Keys <= Elements(vRandom);
    ElementsCard(vRandom);
    SameCard(info.Keys, Elements(vRandom));
    forall p | 0 <= p < |vRandom| ensures vRandom[p] in info && info[vRandom[p]].randomPos == p {
      assert vRandom[p] in Elements(vRandom);
    }
  }

  lemma EntryCount(info: map<Id, Info>)
    ensures |TriedIds(info)| + |RefCounts(info)| == |info|
    ensures NewIds(info, NoGap) == RefCounts(info).Keys
  {
    assert TriedIds(info) + RefCounts(info).Keys == info.Keys;
  }

  lemma ConsistentChecked(h: Hashing, m: Man)
    requires Consistent(h, m, NoGap) && Timely(m)
    ensures Checked(m) && Unseen(h, m)
  {
    RandomSize(m.mapInfo, m.vRandom);
    EntryCount(m.mapInfo);
    TriedListedOnce(h, m.key, m.mapInfo, m.vvTried);
    HeldRefs(m.mapInfo, m.vvNew);
    forall id | id in m.mapInfo ensures EntryChecked(m, id) {
      assert RefOK(m.mapInfo[id], |Holding(m.vvNew, id)|, id, NoGap) && TimelyInfo(m.mapInfo[id]);
    }
  }

  lemma CheckedRandom(m: Man)
    requires Checked(m)
    ensures RandomOK(m.mapInfo, m.vRandom) && CountOK(m.mapInfo, m.nTried, m.nNew, NoGap)
  {
    hide ListsOnce, HeldExactly;
    assert forall id :: id in m.mapInfo ==> EntryChecked(m, id);
    EntryCount(m.mapInfo);
    OrderFilled(m.mapInfo, m.vRandom);
  }

  lemma CheckedAddr(h: Hashing, m: Man)
    requires Checked(m) && Unseen(h, m)
    ensures AddrOK(m.mapInfo, m.mapAddr) && Timely(m)
  {
    hide ListsOnce, HeldExactly;
    OnlyZeroUnindexed(m);
    assert forall id :: id in m.mapInfo ==> EntryChecked(m, id);
  }

  lemma CheckedConsistent(h: Hashing, m: Man)
    requires Checked(m) && Unseen(h, m)
    ensures Consistent(h, m, NoGap) && Timely(m)
  {
    hide ListsOnce, HeldExactly, TriedOK, NewOK, RandomOK, AddrOK, CountOK, Timely, EntryChecked;
    CheckedRandom(m);
    CheckedAddr(h, m);
    ListedOnceTried(h, m);
    RefsHeld(h, m);
  }

  /** The self-check and the invariant are the same thing, up to what the self-check does not look at. */
  lemma CheckIsTheInvariant(h: Hashing, m: Man)
    ensures Consistent(h, m, NoGap) && Timely(m) <==> Checked(m) && Unseen(h, m)
  {
    if Consistent(h, m, NoGap) && Timely(m) { ConsistentChecked(h, m); }
    if Checked(m) && Unseen(h, m) { CheckedConsistent(h, m); }
  }

  /** Entry 0 taken out of the index of a consistent table: the self-check does not notice. */
  lemma ForgottenZeroPasses(h: Hashing, m: Man)
    requires Consistent(h, m, NoGap) && Timely(m) && 0 in m.mapInfo
    ensures var m' := m.(mapAddr := m.mapAddr - {m.mapInfo[0].svc.ip});
            Checked(m') && !AddrOK(m'.mapInfo, m'.mapAddr)
  {
    hide ListsOnce, HeldExactly, NewOK, TriedOK, RandomOK, CountOK, EntryChecked, TriedIds, RefCounts, Timely, Unseen;
    ConsistentChecked(h, m);
    var m' := m.(mapAddr := m.mapAddr - {m.mapInfo[0].svc.ip});
    forall id | id in m'.mapInfo ensures EntryChecked(m', id) {
      ForgottenEntry(m, m', id);
    }
    assert m'.mapInfo[0].svc.ip !in m'.mapAddr;
  }

  lemma ForgottenEntry(m: Man, m': Man, id: Id)
    requires AddrOK(m.mapInfo, m.mapAddr) && id in m.mapInfo && 0 in m.mapInfo && EntryChecked(m, id)
    requires m' == m.(mapAddr := m.mapAddr - {m.mapInfo[0].svc.ip})
    ensures EntryChecked(m', id)
  {
  }

  /** Such a table: one tried entry, with id 0, and an empty address index. */
  lemma UnindexedPasses(h: Hashing, key: seq<nat>) returns (m: Man)
    ensures Checked(m) && m.mapInfo.Keys == {0} && m.mapAddr == map[]
  {
    hide Checked, TriedBucket, TriedOK, NewOK, CountOK;
    var svc := Service(1, 1);
    var info := map[0 := Info(svc, {}, 0, 0, 20, 0, 0, 0, true, 0)];
    var vvTried := seq(TRIED_BUCKET_COUNT, b => if b == TriedBucket(h, key, svc) then [0] else []);
    var vvNew: seq<set<Id>> := seq(NEW_BUCKET_COUNT, b => {});
    OneTried(h, key, svc, info, vvTried, vvNew);
    var whole := Man(key, 1, info, map[1 := 0], [0], 1, 0, vvTried, vvNew);
    ForgottenZeroPasses(h, whole);
    m := whole.(mapAddr := whole.mapAddr - {1});
  }

  lemma OneTried(h: Hashing, key: seq<nat>, svc: Service, info: map<Id, Info>, vvTried: seq<seq<Id>>,
                 vvNew: seq<set<Id>>)
    requires info.Keys == {0} && info[0].inTried && info[0].refCount == 0 && info[0].svc == svc
    requires |vvTried| == TRIED_BUCKET_COUNT && |vvNew| == NEW_BUCKET_COUNT
    requires forall b :: 0 <= b < |vvTried| ==> vvTried[b] == if b == TriedBucket(h, key, svc) then [0] else []
    requires forall b :: 0 <= b < |vvNew| ==> vvNew[b] == {}
    ensures TriedOK(h, key, info, vvTried) && NewOK(info, vvNew, NoGap) && CountOK(info, 1, 0, NoGap)
  {
    hide TriedBucket;
    assert Holding(vvNew, 0) == {};
    assert TriedIds(info) == {0} && NewIds(info, NoGap) == {};
  }
}
