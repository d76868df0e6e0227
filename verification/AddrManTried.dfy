/** Moving an entry from the new buckets to a tried bucket, evicting another if that bucket is full. */
module AddrManTried {
  import opened AddrManModel

  // ---------------------------------------------------------------- out of every new bucket

  function RemoveEverywhere(vvNew: seq<set<Id>>, id: Id): seq<set<Id>> {
    seq(|vvNew|, b requires 0 <= b < |vvNew| => vvNew[b] - {id})
  }

  /** The entry is in no table any more. */
  function Withdraw(m: Man, id: Id): Man {
    SetRefs(m, id, 0).(vvNew := RemoveEverywhere(m.vvNew, id), nNew := m.nNew - 1)
  }

  lemma HoldingRemoved(vvNew: seq<set<Id>>, id: Id, x: Id)
    ensures Holding(RemoveEverywhere(vvNew, id), x) == if x == id then {} else Holding(vvNew, x)
  {
  }

  lemma WithdrawRefs(info: map<Id, Info>, vvNew: seq<set<Id>>, id: Id)
    requires NewOK(info, vvNew, NoGap) && id in info && !info[id].inTried
    ensures var info' := info[id := info[id].(refCount := 0)];
            && NewOK(info', RemoveEverywhere(vvNew, id), Limbo(id))
            && |NewIds(info', Limbo(id))| == |NewIds(info, NoGap)| - 1
  {
    var info', vvNew' := info[id := info[id].(refCount := 0)], RemoveEverywhere(vvNew, id);
    forall x | x in info' ensures RefOK(info'[x], |Holding(vvNew', x)|, x, Limbo(id)) {
      HoldingRemoved(vvNew, id, x);
      assert RefOK(info[x], |Holding(vvNew, x)|, x, NoGap);
    }
    forall b | 0 <= b < |vvNew'| ensures vvNew'[b] <= info'.Keys && |vvNew'[b]| <= NEW_BUCKET_SIZE {
      assert vvNew[b] <= info.Keys;
      SubsetSmaller(vvNew[b], id);
    }
    assert id in NewIds(info, NoGap);
    assert NewIds(info', Limbo(id)) == NewIds(info, NoGap) - {id};
  }

  lemma SubsetSmaller(s: set<Id>, id: Id)
    ensures |s - {id}| == |s| - if id in s then 1 else 0
  {
    if id !in s { assert s - {id} == s; }
  }

  lemma WithdrawConsistent(h: Hashing, m: Man, id: Id)
    requires Consistent(h, m, NoGap) && id in m.mapInfo && !m.mapInfo[id].inTried
    ensures Consistent(h, Withdraw(m, id), Limbo(id))
  {
    SetRefsFrames(h, m, id, 0);
    WithdrawRefs(m.mapInfo, m.vvNew, id);
  }

  // ---------------------------------------------------------------- into a bucket with room

  function Place(m: Man, id: Id, b: nat): Man {
    if id !in m.mapInfo || b >= |m.vvTried| then m
    else m.(vvTried := m.vvTried[b := m.vvTried[b] + [id]], nTried := m.nTried + 1,
       mapInfo := m.mapInfo[id := m.mapInfo[id].(inTried := true)])
  }

  lemma PlaceTriedOK(h: Hashing, key: seq<nat>, info: map<Id, Info>, vvTried: seq<seq<Id>>, id: Id, b: nat)
    requires TriedOK(h, key, info, vvTried) && id in info && !info[id].inTried
    requires b == TriedBucket(h, key, info[id].svc) && |vvTried[b]| < TRIED_BUCKET_SIZE
    ensures TriedOK(h, key, info[id := info[id].(inTried := true)], vvTried[b := vvTried[b] + [id]])
    ensures |TriedIds(info[id := info[id].(inTried := true)])| == |TriedIds(info)| + 1
  {
    var info', vv := info[id := info[id].(inTried := true)], vvTried[b := vvTried[b] + [id]];
    forall x | x in info' && info'[x].inTried ensures x in vv[TriedBucket(h, key, info'[x].svc)] {
      if x == id {
        assert vv[b][|vvTried[b]|] == id;
      } else {
        assert x in vvTried[TriedBucket(h, key, info[x].svc)];
      }
    }
    forall c, p, x | TriedAt(vv, c, p, x)
      ensures x in info' && info'[x].inTried && TriedBucket(h, key, info'[x].svc) == c
      ensures x == id ==> c == b && p == |vvTried[b]|
      ensures x != id ==> TriedAt(vvTried, c, p, x)
    {
      if !(c == b && p == |vvTried[b]|) { assert TriedAt(vvTried, c, p, x); }
    }
    assert id !in TriedIds(info);
    assert TriedIds(info') == TriedIds(info) + {id};
  }

  lemma LimboBecomesTried(info: map<Id, Info>, vvNew: seq<set<Id>>, id: Id)
    requires NewOK(info, vvNew, Limbo(id)) && !info[id].inTried
    ensures var info' := info[id := info[id].(inTried := true)];
            NewOK(info', vvNew, NoGap) && NewIds(info', NoGap) == NewIds(info, Limbo(id))
  {
  }

  lemma PlaceConsistent(h: Hashing, m: Man, id: Id, b: nat)
    requires Consistent(h, m, Limbo(id)) && !m.mapInfo[id].inTried
    requires b == TriedBucket(h, m.key, m.mapInfo[id].svc) && |m.vvTried[b]| < TRIED_BUCKET_SIZE
    ensures Consistent(h, Place(m, id, b), NoGap)
  {
    var i := m.mapInfo[id].(inTried := true);
    TouchRandomOK(m.mapInfo, m.vRandom, id, i);
    AddrFrame(m.mapInfo, m.mapInfo[id := i], m.mapAddr);
    PlaceTriedOK(h, m.key, m.mapInfo, m.vvTried, id, b);
    LimboBecomesTried(m.mapInfo, m.vvNew, id);
  }

  // ---------------------------------------------------------------- shuffling a tried bucket

  function SwapSeq(v: seq<Id>, i: nat, j: nat): seq<Id>
    requires i < |v| && j < |v|
  {
    v[j := v[i]][i := v[j]]
  }

  lemma SwapTriedOK(h: Hashing, key: seq<nat>, info: map<Id, Info>, vvTried: seq<seq<Id>>, b: nat, i: nat, j: nat)
    requires TriedOK(h, key, info, vvTried) && b < |vvTried| && i < |vvTried[b]| && j < |vvTried[b]|
    ensures TriedOK(h, key, info, vvTried[b := SwapSeq(vvTried[b], i, j)])
  {
    var vv := vvTried[b := SwapSeq(vvTried[b], i, j)];
    forall c, p, x | TriedAt(vv, c, p, x)
      ensures TriedAt(vvTried, c, if c == b && p == i then j else if c == b && p == j then i else p, x)
    {
    }
    forall id | id in info && info[id].inTried ensures id in vv[TriedBucket(h, key, info[id].svc)] {
      var c := TriedBucket(h, key, info[id].svc);
      var p :| 0 <= p < |vvTried[c]| && vvTried[c][p] == id;
      assert vv[c][if c == b && p == i then j else if c == b && p == j then i else p] == id;
    }
  }

  // ---------------------------------------------------------------- into a full bucket

  function SetAt(v: seq<Id>, p: nat, id: Id): seq<Id>
    requires p < |v|
  {
    v[p := id]
  }

  /** id takes position p of tried bucket b; the entry there goes back to new bucket nb. */
  function Replace(m: Man, id: Id, b: nat, p: nat, nb: nat): Man {
    if !(b < |m.vvTried| && p < |m.vvTried[b]| && m.vvTried[b][p] in m.mapInfo && id in m.mapInfo && nb < |m.vvNew|)
    then m
    else
    var out := m.vvTried[b][p];
    m.(vvTried := m.vvTried[b := SetAt(m.vvTried[b], p, id)],
       vvNew := m.vvNew[nb := m.vvNew[nb] + {out}],
       nNew := m.nNew + 1,
       mapInfo := Exchanged(m.mapInfo, out, id))
  }

  function Exchanged(info: map<Id, Info>, out: Id, id: Id): map<Id, Info>
    requires out in info && id in info
  {
    var info1 := info[out := info[out].(inTried := false, refCount := 1)];
    info1[id := info1[id].(inTried := true)]
  }

  /** Who is where after the exchange. */
  lemma ReplacedAt(h: Hashing, key: seq<nat>, info: map<Id, Info>, vvTried: seq<seq<Id>>, id: Id, b: nat, p: nat,
                   c: int, q: int, x: Id)
    requires TriedOK(h, key, info, vvTried) && id in info && !info[id].inTried && b < |vvTried| && p < |vvTried[b]|
    requires TriedAt(vvTried[b := SetAt(vvTried[b], p, id)], c, q, x)
    ensures if c == b && q == p then x == id else TriedAt(vvTried, c, q, x) && x != vvTried[b][p] && x != id
  {
    if !(c == b && q == p) {
      assert TriedAt(vvTried, b, p, vvTried[b][p]) && TriedAt(vvTried, c, q, x);
    }
  }

  /** Every tried entry has its place after the exchange. */
  lemma ReplacedPlace(h: Hashing, key: seq<nat>, info: map<Id, Info>, vvTried: seq<seq<Id>>, id: Id, b: nat, p: nat,
                      x: Id)
    requires TriedOK(h, key, info, vvTried) && b < |vvTried| && p < |vvTried[b]|
    requires x in info && info[x].inTried && x != vvTried[b][p]
    ensures x in vvTried[b := SetAt(vvTried[b], p, id)][TriedBucket(h, key, info[x].svc)]
  {
    var c := TriedBucket(h, key, info[x].svc);
    assert x in vvTried[c];
    var q :| 0 <= q < |vvTried[c]| && vvTried[c][q] == x;
    assert vvTried[b := SetAt(vvTried[b], p, id)][c][q] == x;
  }

  lemma ReplaceTriedOK(h: Hashing, key: seq<nat>, info: map<Id, Info>, vvTried: seq<seq<Id>>, id: Id, b: nat, p: nat)
    requires TriedOK(h, key, info, vvTried) && id in info && !info[id].inTried
    requires b == TriedBucket(h, key, info[id].svc) && p < |vvTried[b]|
    ensures vvTried[b][p] in info && info[vvTried[b][p]].inTried
    ensures TriedOK(h, key, Exchanged(info, vvTried[b][p], id), vvTried[b := SetAt(vvTried[b], p, id)])
    ensures |TriedIds(Exchanged(info, vvTried[b][p], id))| == |TriedIds(info)|
  {
    var out := vvTried[b][p];
    assert TriedAt(vvTried, b, p, out);
    var info', vv := Exchanged(info, out, id), vvTried[b := SetAt(vvTried[b], p, id)];
    forall c, q, x | TriedAt(vv, c, q, x)
      ensures if c == b && q == p then x == id else TriedAt(vvTried, c, q, x) && x != out && x != id
    {
      ReplacedAt(h, key, info, vvTried, id, b, p, c, q, x);
    }
    forall x | x in info' && info'[x].inTried ensures x in vv[TriedBucket(h, key, info'[x].svc)] {
      if x == id { assert vv[b][p] == id; } else { ReplacedPlace(h, key, info, vvTried, id, b, p, x); }
    }
    ExchangedCount(info, out, id);
  }

  lemma ExchangedCount(info: map<Id, Info>, out: Id, id: Id)
    requires out in info && info[out].inTried && id in info && !info[id].inTried
    ensures |TriedIds(Exchanged(info, out, id))| == |TriedIds(info)|
  {
    assert out in TriedIds(info) && id !in TriedIds(info);
    assert TriedIds(Exchanged(info, out, id)) == TriedIds(info) - {out} + {id};
  }

  lemma EvictedUnheld(info: map<Id, Info>, vvNew: seq<set<Id>>, out: Id, gap: Gap, b: nat)
    requires NewOK(info, vvNew, gap) && out in info && info[out].inTried && b < |vvNew|
    ensures out !in vvNew[b] && Holding(vvNew, out) == {}
  {
    assert RefOK(info[out], |Holding(vvNew, out)|, out, gap);
    assert Holding(vvNew, out) == {};
    assert b !in Holding(vvNew, out);
  }

  lemma ReplaceRefOK(info: map<Id, Info>, vvNew: seq<set<Id>>, out: Id, id: Id, nb: nat, x: Id)
    requires NewOK(info, vvNew, Limbo(id)) && out in info && info[out].inTried && !info[id].inTried
    requires nb < |vvNew| && x in info
    ensures RefOK(Exchanged(info, out, id)[x], |Holding(vvNew[nb := vvNew[nb] + {out}], x)|, x, NoGap)
  {
    EvictedUnheld(info, vvNew, out, Limbo(id), nb);
    HoldingInsert(vvNew, nb, out, x);
    assert RefOK(info[x], |Holding(vvNew, x)|, x, Limbo(id));
  }

  lemma ReplaceNewIds(info: map<Id, Info>, out: Id, id: Id)
    requires out in info && info[out].inTried && id in info && !info[id].inTried
    ensures |NewIds(Exchanged(info, out, id), NoGap)| == |NewIds(info, Limbo(id))| + 1
  {
    assert out !in NewIds(info, Limbo(id));
    assert NewIds(Exchanged(info, out, id), NoGap) == NewIds(info, Limbo(id)) + {out};
  }

  lemma ReplaceRefs(info: map<Id, Info>, vvNew: seq<set<Id>>, out: Id, id: Id, nb: nat)
    requires NewOK(info, vvNew, Limbo(id)) && out in info && info[out].inTried && !info[id].inTried
    requires nb < |vvNew| && |vvNew[nb]| < NEW_BUCKET_SIZE
    ensures NewOK(Exchanged(info, out, id), vvNew[nb := vvNew[nb] + {out}], NoGap)
  {
    var info', vvNew' := Exchanged(info, out, id), vvNew[nb := vvNew[nb] + {out}];
    forall x | x in info' ensures RefOK(info'[x], |Holding(vvNew', x)|, x, NoGap) {
      ReplaceRefOK(info, vvNew, out, id, nb, x);
    }
    assert info'.Keys == info.Keys;
  }

  lemma ReplaceConsistent(h: Hashing, m: Man, id: Id, b: nat, p: nat, nb: nat)
    requires Consistent(h, m, Limbo(id)) && !m.mapInfo[id].inTried
    requires b == TriedBucket(h, m.key, m.mapInfo[id].svc) && p < |m.vvTried[b]|
    requires nb < NEW_BUCKET_COUNT && |m.vvNew[nb]| < NEW_BUCKET_SIZE
    ensures m.vvTried[b][p] in m.mapInfo && Consistent(h, Replace(m, id, b, p, nb), NoGap)
  {
    ReplaceTriedOK(h, m.key, m.mapInfo, m.vvTried, id, b, p);
    var out := m.vvTried[b][p];
    ReplaceRefs(m.mapInfo, m.vvNew, out, id, nb);
    ReplaceNewIds(m.mapInfo, out, id);
    ExchangedFrames(m, out, id);
  }

  lemma ExchangedFrames(m: Man, out: Id, id: Id)
    requires RandomOK(m.mapInfo, m.vRandom) && AddrOK(m.mapInfo, m.mapAddr) && out in m.mapInfo && id in m.mapInfo
    ensures RandomOK(Exchanged(m.mapInfo, out, id), m.vRandom) && AddrOK(Exchanged(m.mapInfo, out, id), m.mapAddr)
  {
    var info1 := m.mapInfo[out := m.mapInfo[out].(inTried := false, refCount := 1)];
    TouchRandomOK(m.mapInfo, m.vRandom, out, info1[out]);
    TouchRandomOK(info1, m.vRandom, id, info1[id].(inTried := true));
    AddrFrame(m.mapInfo, Exchanged(m.mapInfo, out, id), m.mapAddr);
  }
}
