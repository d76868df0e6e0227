/** Whole histories of an address manager: what holds after every sequence of its operations. */
module AddrManRuns {
  import opened Options
  import opened AddrManModel
  import opened AddrMan
  import opened AddrManCheck
  import opened Iteration

  // ---------------------------------------------------------------- the tables are bounded

  ghost function Gathered<T>(sets: seq<set<T>>): set<T> {
    if sets == [] then {} else Gathered(sets[1..]) + sets[0]
  }

  lemma {:induction false} GatheredHas<T>(sets: seq<set<T>>, b: nat, x: T)
    requires b < |sets| && x in sets[b]
    ensures x in Gathered(sets)
  {
    if b > 0 { GatheredHas(sets[1..], b - 1, x); }
  }

  lemma {:induction false} GatheredBound<T>(sets: seq<set<T>>, size: nat)
    requires forall b :: 0 <= b < |sets| ==> |sets[b]| <= size
    ensures |Gathered(sets)| <= |sets| * size
  {
    if sets != [] {
      GatheredBound(sets[1..], size);
      assert |sets| * size == |sets[1..]| * size + size;
    }
  }

  lemma TriedBound(h: Hashing, m: Man)
    requires Consistent(h, m, NoGap)
    ensures m.nTried <= TRIED_BUCKET_COUNT * TRIED_BUCKET_SIZE
  {
    var sets := seq(|m.vvTried|, b requires 0 <= b < |m.vvTried| => Elements(m.vvTried[b]));
    forall b | 0 <= b < |sets| ensures |sets[b]| <= TRIED_BUCKET_SIZE {
      forall i, j | 0 <= i < j < |m.vvTried[b]| ensures m.vvTried[b][i] != m.vvTried[b][j] {
        if m.vvTried[b][i] == m.vvTried[b][j] {
          assert TriedAt(m.vvTried, b, i, m.vvTried[b][i]) && TriedAt(m.vvTried, b, j, m.vvTried[b][i]);
        }
      }
      DistinctCard(m.vvTried[b]);
    }
    GatheredBound(sets, TRIED_BUCKET_SIZE);
    forall x | x in TriedIds(m.mapInfo) ensures x in Gathered(sets) {
      var b := TriedBucket(h, m.key, m.mapInfo[x].svc);
      GatheredHas(sets, b, x);
    }
    SubsetCard(TriedIds(m.mapInfo), Gathered(sets));
  }

  lemma NewBound(h: Hashing, m: Man)
    requires Consistent(h, m, NoGap)
    ensures m.nNew <= NEW_BUCKET_COUNT * NEW_BUCKET_SIZE
  {
    GatheredBound(m.vvNew, NEW_BUCKET_SIZE);
    forall x | x in NewIds(m.mapInfo, NoGap) ensures x in Gathered(m.vvNew) {
      assert RefOK(m.mapInfo[x], |Holding(m.vvNew, x)|, x, NoGap);
      var b := Member(Holding(m.vvNew, x));
      GatheredHas(m.vvNew, b, x);
    }
    SubsetCard(NewIds(m.mapInfo, NoGap), Gathered(m.vvNew));
  }

  /** The sizes of the tables, which the operations never look at. */
  lemma Bounded(h: Hashing, m: Man)
    requires Consistent(h, m, NoGap)
    ensures 0 <= m.nTried <= 4096 && 0 <= m.nNew <= 16384 && |m.vRandom| == |m.mapAddr| == m.nTried + m.nNew
  {
    TriedBound(h, m);
    NewBound(h, m);
    RandomSize(m.mapInfo, m.vRandom);
    assert TriedIds(m.mapInfo) + NewIds(m.mapInfo, NoGap) == m.mapInfo.Keys;
    AddrCard(m.mapInfo, m.mapAddr);
  }

  /** As many addresses as entries. */
  lemma {:induction false} AddrCard(info: map<Id, Info>, addr: map<NetAddr, Id>)
    requires AddrOK(info, addr)
    ensures |info| == |addr|
    decreases |info|
  {
    if info.Keys == {} {
      assert addr.Keys == {};
    } else {
      var id := Member(info.Keys);
      var a := info[id].svc.ip;
      var info', addr' := info - {id}, addr - {a};
      assert info'.Keys == info.Keys - {id} && addr'.Keys == addr.Keys - {a};
      AddrCard(info', addr');
    }
  }

  // ---------------------------------------------------------------- every history

  datatype Operation =
    | AddOp(a: Address, source: NetAddr, penalty: int, now: int, routable: bool)
    | GoodOp(svc: Service, t: int)
    | AttemptOp(svc: Service, t: int)
    | ConnectedOp(svc: Service, t: int)
    | GetAddrOp

  /** The clock the operations report has passed its origin. */
  predicate Clocked(op: Operation) {
    match op
    case GoodOp(_, t) => t > 0
    case AttemptOp(_, t) => t >= 0
    case _ => true
  }

  lemma AttemptTimely(m: Man, id: Id, t: int)
    requires Timely(m) && id in m.mapInfo
    ensures Timely(Touch(m, id, AttemptInfo(m.mapInfo[id], t))) <==> t >= 0
  {
    var m' := Touch(m, id, AttemptInfo(m.mapInfo[id], t));
    assert TimelyInfo(m'.mapInfo[id]) <==> t >= 0;
    if t >= 0 {
      forall x | x in m'.mapInfo ensures TimelyInfo(m'.mapInfo[x]) {
        assert TimelyInfo(m.mapInfo[x]);
      }
    }
  }

  lemma ConnectedTimely(m: Man, id: Id, t: int)
    requires Timely(m) && id in m.mapInfo
    ensures Timely(Touch(m, id, ConnectedInfo(m.mapInfo[id], t)))
  {
    var m' := Touch(m, id, ConnectedInfo(m.mapInfo[id], t));
    forall x | x in m'.mapInfo ensures TimelyInfo(m'.mapInfo[x]) {
      assert TimelyInfo(m.mapInfo[x]);
    }
  }

  lemma ReorderedTimely(m: Man, m': Man)
    requires Timely(m) && Reordered(m.mapInfo, m'.mapInfo)
    ensures Timely(m')
  {
    forall x | x in m'.mapInfo ensures TimelyInfo(m'.mapInfo[x]) {
      assert TimelyInfo(m.mapInfo[x]);
    }
  }

  lemma LearnedFacts(m: Man, m': Man, a: Address, lost: Option<Id>)
    requires Learned(m, m', a, lost)
    ensures Timely(m) ==> Timely(m')
    ensures m'.mapAddr.Keys <= m.mapAddr.Keys + {a.svc.ip}
  {
  }

  lemma MadeGoodTimely(h: Hashing, m: Man, m': Man, svc: Service, t: int, rand: Random, origin: nat, out: Option<Id>,
                       back: nat)
    requires Matches(m, svc) && MadeGood(h, m, m', svc, t, rand, origin, out, back) && Timely(m) && t > 0
    ensures Timely(m')
  {
  }

  /** The address an operation may make known. */
  function Taught(op: Operation): set<NetAddr> {
    if op.AddOp? && op.routable then {op.a.svc.ip} else {}
  }

  /** One operation: only Add_ may make an address known or unknown. */
  method Perform(m: CAddrMan, op: Operation, rand: Random)
    requires m.Valid()
    modifies m
    ensures m.Valid()
    ensures old(Timely(m.State())) && Clocked(op) ==> Timely(m.State())
    ensures m.mapAddr.Keys <= old(m.mapAddr).Keys + Taught(op)
    ensures op.AddOp? || m.mapAddr == old(m.mapAddr)
  {
    hide Consistent, Timely, Learned, MadeGood, Reordered;
    ghost var before := m.State();
    match op {
      case AddOp(a, source, penalty, now, routable) =>
        var fNew;
        ghost var lost;
        fNew, lost := m.Add(a, source, penalty, now, routable, rand);
        if routable { LearnedFacts(before, m.State(), a, lost); }
      case GoodOp(svc, t) =>
        ghost var out, origin, back := m.Good(svc, t, rand);
        if Matches(before, svc) && Timely(before) && t > 0 {
          MadeGoodTimely(m.hashing, before, m.State(), svc, t, rand, origin, out, back);
        }
      case AttemptOp(svc, t) =>
        m.Attempt(svc, t);
        if Matches(before, svc) && Timely(before) { AttemptTimely(before, before.mapAddr[svc.ip], t); }
      case ConnectedOp(svc, t) =>
        m.Connected(svc, t);
        if Matches(before, svc) && Timely(before) { ConnectedTimely(before, before.mapAddr[svc.ip], t); }
      case GetAddrOp =>
        var vAddr;
        ghost var ids;
        vAddr, ids := m.GetAddr(rand);
        if Timely(before) { ReorderedTimely(before, m.State()); }
    }
  }

  /** Any history from an empty manager: the tables are consistent, bounded, and hold nothing that was never added. */
  method Run(hashing: Hashing, key: seq<nat>, ops: seq<Operation>, rand: nat -> Random) returns (m: CAddrMan)
    ensures fresh(m) && m.Valid()
    ensures (forall op :: op in ops ==> Clocked(op)) ==> Timely(m.State()) && Checked(m.State())
    ensures 0 <= m.nTried <= 4096 && 0 <= m.nNew <= 16384 && |m.vRandom| == |m.mapAddr| == m.nTried + m.nNew
    ensures forall a :: a in m.mapAddr ==> exists op :: op in ops && a in Taught(op)
  {
    hide Consistent, Timely, Checked, Unseen;
    m := new CAddrMan(hashing, key);
    assert m.mapAddr == map[];
    var i := 0;
    while i < |ops|
      invariant 0 <= i <= |ops|
      invariant fresh(m) && m.Valid()
      invariant (forall op :: op in ops[..i] ==> Clocked(op)) ==> Timely(m.State())
      invariant forall a :: a in m.mapAddr ==> exists op :: op in ops && a in Taught(op)
    {
      Perform(m, ops[i], rand(i));
      assert ops[..i + 1] == ops[..i] + [ops[i]];
      i := i + 1;
    }
    assert ops[..i] == ops;
    Bounded(m.hashing, m.State());
    CheckIsTheInvariant(m.hashing, m.State());
  }
}
