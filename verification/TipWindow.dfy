/**
 The bounded tip window of the live authority: a pass that frees every block
 index object below the retained window that nothing holds any more, after
 cutting the raw edges that lead to it.
 */
module TipWindow {
  import opened Iteration

  type Hash = nat

  class CBlockIndex {
    const nHeight: int
    var pprev: CBlockIndex?
    var pskip: CBlockIndex?
    var pnext: CBlockIndex?

    constructor (nHeight: int)
      ensures this.nHeight == nHeight && pprev == pskip == pnext == null
    {
      this.nHeight := nHeight;
      pprev, pskip, pnext := null, null, null;
    }

    ghost function Targets(): set<CBlockIndex?>
      reads this
    {
      {pprev, pskip, pnext}
    }
  }

  /** What the pass asks of the mutable tip: its height, the registered floor and the heights it has active. */
  datatype Tip = NoTip | Tip(height: int, protectedFloor: int, active: set<int>)

  /** The edges into the dead are null, the others as they were. */
  twostate predicate EdgesCut(o: CBlockIndex, dead: set<CBlockIndex>)
    reads o
  {
    && o.pprev == (if old(o.pprev) in dead then null else old(o.pprev))
    && o.pskip == (if old(o.pskip) in dead then null else old(o.pskip))
    && o.pnext == (if old(o.pnext) in dead then null else old(o.pnext))
  }

  class Authority {
    var ready: bool                              // open, over an open base reader
    var horizon: int
    var liveTipHeight: int
    var tip: Tip
    var window: map<Hash, CBlockIndex>           // the resident objects, owned here
    var anchors: set<Hash>
    var mapBlockIndex: map<Hash, CBlockIndex?>
    var best: CBlockIndex?
    var genesis: CBlockIndex?
    ghost var live: set<CBlockIndex>             // storage that has not been freed

    /** Every object a walk can start from. */
    ghost function Roots(): set<CBlockIndex>
      reads this
    {
      (set h | h in window :: window[h]) + (set h | h in mapBlockIndex && mapBlockIndex[h] != null :: mapBlockIndex[h])
    }

    /** Whatever is reachable by name is live storage, and no object is owned twice. */
    ghost predicate Valid()
      reads this
    {
      && Roots() <= live
      && (forall g, h :: g in window && h in window && window[g] == window[h] ==> g == h)
    }

    /** No edge of a reachable object leads into freed storage. */
    ghost predicate NoDangling()
      reads this, Roots()
    {
      forall o, t :: o in Roots() && t in o.Targets() && t != null ==> t in live
    }

    function KeepWindow(): int
      reads this
    {
      if 2 * horizon < 2048 then 2048 else 2 * horizon
    }

    function TipHeight(): int
      reads this
    {
      if liveTipHeight < 0 && tip.Tip? then tip.height else liveTipHeight
    }

    /** The map has it, or an object of the map leads to it, or it is the best or the genesis object. */
    ghost predicate Held(v: CBlockIndex)
      reads this, Roots()
    {
      || v == best || v == genesis
      || exists h :: h in mapBlockIndex && mapBlockIndex[h] != null &&
           (v == mapBlockIndex[h] || v in mapBlockIndex[h].Targets())
    }

    /** The checkpoint floor the mutable tip has registered. */
    predicate Protected(nHeight: int)
      reads this
    {
      tip.Tip? && tip.protectedFloor > 0 && nHeight >= tip.protectedFloor && nHeight in tip.active
    }

    predicate Runs()
      reads this
    {
      ready && |window| > 1 && TipHeight() >= 0 && TipHeight() - KeepWindow() > 0
    }

    /** The height that counts: the live tip's, or the mutable tip's while there is none. */
    ghost function Top(): int
      reads this`liveTipHeight, this`tip
    {
      if liveTipHeight >= 0 || tip.NoTip? then liveTipHeight else tip.height
    }

    /** More than 2048 and more than twice the horizon below the top, and not active above a registered floor. */
    ghost predicate Deep(nHeight: int)
      reads this`horizon, this`liveTipHeight, this`tip
    {
      && Top() > 2048 && Top() > 2 * horizon
      && Top() - nHeight > 2048 && Top() - nHeight > 2 * horizon
      && !(tip.Tip? && 0 < tip.protectedFloor <= nHeight && nHeight in tip.active)
    }

    /** A resident object that has to go: one of several, deep below the top, neither anchored nor held. */
    ghost predicate Evictable(h: Hash)
      reads this, Roots()
    {
      ready && |window| > 1 && h in window && Deep(window[h].nHeight) && h !in anchors && !Held(window[h])
    }

    /** Where the pass stops early there is nothing to do. */
    lemma IdleOtherwise()
      requires !Runs()
      ensures forall h :: !Evictable(h)
    {
    }

    lemma DeepIff(nHeight: int)
      requires Runs()
      ensures Deep(nHeight) <==> nHeight < TipHeight() - KeepWindow() && !Protected(nHeight)
    {
    }

    // -------------------------------------------------------------- cutting the edges to one object

    method CutObject(o: CBlockIndex, victim: CBlockIndex)
      modifies o
      ensures EdgesCut(o, {victim})
    {
      if o.pprev == victim { o.pprev := null; }
      if o.pskip == victim { o.pskip := null; }
      if o.pnext == victim { o.pnext := null; }
    }

    /** The loop over the window. */
    method CutWindow(victim: CBlockIndex)
      modifies Roots()
      ensures forall o :: o in Roots() && o != victim ==> unchanged(o) || EdgesCut(o, {victim})
      ensures forall h :: h in window && window[h] != victim ==> EdgesCut(window[h], {victim})
      ensures unchanged(victim)
    {
      var todo := window.Keys;
      while todo != {}
        invariant todo <= window.Keys
        invariant forall o :: o in Roots() && o != victim ==> unchanged(o) || EdgesCut(o, {victim})
        invariant forall h :: h in window && h !in todo && window[h] != victim ==> EdgesCut(window[h], {victim})
        invariant unchanged(victim)
        decreases todo
      {
        var h := Least(todo);
        var o := window[h];
        if o != victim {
          CutObject(o, victim);
        }
        todo := todo - {h};
      }
    }

    /** The loop over the map. */
    method CutMap(victim: CBlockIndex)
      modifies Roots()
      ensures forall o :: o in Roots() && o != victim ==> unchanged(o) || EdgesCut(o, {victim})
      ensures forall h :: h in mapBlockIndex && mapBlockIndex[h] != null && mapBlockIndex[h] != victim ==>
                EdgesCut(mapBlockIndex[h], {victim})
      ensures unchanged(victim)
    {
      var todo := mapBlockIndex.Keys;
      while todo != {}
        invariant todo <= mapBlockIndex.Keys
        invariant forall o :: o in Roots() && o != victim ==> unchanged(o) || EdgesCut(o, {victim})
        invariant forall h :: h in mapBlockIndex && h !in todo
                              && mapBlockIndex[h] != null && mapBlockIndex[h] != victim ==>
                    EdgesCut(mapBlockIndex[h], {victim})
        invariant unchanged(victim)
        decreases todo
      {
        var h := Least(todo);
        var o := mapBlockIndex[h];
        if o != null && o != victim {
          if o.pprev == victim || o.pskip == victim || o.pnext == victim {
            CutObject(o, victim);
          }
        }
        todo := todo - {h};
      }
    }

    /** RR4ReleaseEdges: nothing reachable leads to the victim any more, nor the victim to anything. */
    method ReleaseEdges(victimHash: Hash)
      modifies Roots()
      ensures victimHash in window ==>
                && window[victimHash].Targets() == {null}
                && forall o :: o in Roots() && o != window[victimHash] ==> EdgesCut(o, {window[victimHash]})
      ensures victimHash !in window ==> forall o :: o in Roots() ==> unchanged(o)
    {
      if victimHash !in window {
        return;
      }
      var victim := window[victimHash];
      CutWindow(victim);
      CutMap(victim);
      victim.pprev := null;
      victim.pnext := null;
      victim.pskip := null;
    }

    // -------------------------------------------------------------- the pass

    /** The identities the map holds, collected once. */
    method CollectHeld() returns (held: set<CBlockIndex?>)
      ensures forall v: CBlockIndex :: v in held <==> Held(v)
    {
      held := {};
      if best != null { held := held + {best}; }
      if genesis != null { held := held + {genesis}; }
      var todo := mapBlockIndex.Keys;
      while todo != {}
        invariant todo <= mapBlockIndex.Keys
        invariant forall v: CBlockIndex :: v in held <==>
                    (|| v == best || v == genesis
                     || exists h :: h in mapBlockIndex && h !in todo && mapBlockIndex[h] != null &&
                          (v == mapBlockIndex[h] || v in mapBlockIndex[h].Targets()))
        decreases todo
      {
        var h := Least(todo);
        var o := mapBlockIndex[h];
        if o != null {
          held := held + {o};
          if o.pprev != null { held := held + {o.pprev}; }
          if o.pskip != null { held := held + {o.pskip}; }
          if o.pnext != null { held := held + {o.pnext}; }
        }
        todo := todo - {h};
      }
    }

    method CollectVictims() returns (ids: seq<Hash>)
      requires Runs()
      ensures forall h :: h in ids <==> Evictable(h)
      ensures Distinct(ids)
    {
      var held := CollectHeld();
      var floor := TipHeight() - KeepWindow();
      ids := [];
      var todo := window.Keys;
      while todo != {}
        invariant todo <= window.Keys
        invariant forall h :: h in ids <==> Evictable(h) && h !in todo
        invariant Distinct(ids)
        decreases todo
      {
        var h := Least(todo);
        var victim := window[h];
        DeepIff(victim.nHeight);
        if victim.nHeight < floor && h !in anchors && victim != best && victim != genesis && victim !in held
           && !Protected(victim.nHeight)
        {
          ids := ids + [h];
        }
        todo := todo - {h};
      }
    }

    /** The objects of some of the window's hashes. */
    ghost function Objects(ids: set<Hash>): set<CBlockIndex>
      reads this
    {
      set h | h in ids && h in window :: window[h]
    }

    lemma ObjectsGrow(ids: seq<Hash>, k: nat)
      requires k < |ids| && ids[k] in window
      ensures Objects(Elements(ids[..k + 1])) == Objects(Elements(ids[..k])) + {window[ids[k]]}
    {
      assert ids[..k + 1] == ids[..k] + [ids[k]];
    }

    /** First phase: every edge into the victims is cut, whoever has it. */
    method ReleaseAll(ids: seq<Hash>)
      requires forall h :: h in ids ==> h in window
      modifies Roots()
      ensures forall o :: o in Roots() && o !in Objects(Elements(ids)) ==> EdgesCut(o, Objects(Elements(ids)))
    {
      hide Objects;
      assert Objects(Elements(ids[..0])) == {} by { NoObjects(ids); }
      var k := 0;
      while k < |ids|
        invariant 0 <= k <= |ids|
        invariant forall o :: o in Roots() && o !in Objects(Elements(ids[..k])) ==>
                    EdgesCut(o, Objects(Elements(ids[..k])))
      {
        ObjectsGrow(ids, k);
        ReleaseEdges(ids[k]);
        k := k + 1;
      }
      assert ids[..k] == ids;
    }

    lemma NoObjects(ids: seq<Hash>)
      ensures Objects(Elements(ids[..0])) == {}
    {
    }

    /** ReleaseOwned: the object is freed and its slot erased. */
    method ReleaseOwned(h: Hash) returns (released: bool)
      modifies this`window, this`live
      ensures released <==> h in old(window)
      ensures window == old(window) - {h}
      ensures live == old(live) - old(Objects({h}))
    {
      if h !in window {
        return false;
      }
      live := live - {window[h]};
      window := window - {h};
      released := true;
    }

    /** Second phase: the victims are freed. */
    method FreeAll(ids: seq<Hash>)
      requires Distinct(ids) && forall h :: h in ids ==> h in window
      modifies this`window, this`live
      ensures window == old(window) - Elements(ids)
      ensures live == old(live) - old(Objects(Elements(ids)))
    {
      var k := 0;
      while k < |ids|
        invariant 0 <= k <= |ids|
        invariant window == old(window) - Elements(ids[..k])
        invariant live == old(live) - old(Objects(Elements(ids[..k])))
      {
        assert ids[..k + 1] == ids[..k] + [ids[k]];
        assert Elements(ids[..k + 1]) == Elements(ids[..k]) + {ids[k]};
        assert ids[k] !in ids[..k];
        var _ := ReleaseOwned(ids[k]);
        k := k + 1;
      }
      assert ids[..k] == ids;
    }

    /** What is kept is not among the victims, under whatever name. */
    lemma KeptApart(ids: set<Hash>)
      requires Valid() && forall h :: h in ids ==> Evictable(h)
      ensures forall h :: h in window && h !in ids ==> window[h] !in Objects(ids)
      ensures forall h :: h in mapBlockIndex && mapBlockIndex[h] != null ==> mapBlockIndex[h] !in Objects(ids)
      ensures forall v :: v in Objects(ids) ==> !Held(v)
    {
    }

    /** Both phases: the victims are gone, and with them every edge to them. */
    method TwoPhases(ids: seq<Hash>)
      requires Valid() && Distinct(ids) && forall h :: h in ids ==> Evictable(h)
      modifies this`window, this`live, Roots()
      ensures window == old(window) - Elements(ids) && live == old(live) - old(Objects(Elements(ids)))
      ensures Valid() && Roots() <= old(Roots())
      ensures forall o :: o in Roots() ==> EdgesCut(o, old(Objects(Elements(ids))))
    {
      KeptApart(Elements(ids));
      hide Evictable, Held;
      ghost var dead := Objects(Elements(ids));
      ghost var roots := Roots();
      ReleaseAll(ids);
      FreeAll(ids);
      assert Roots() <= roots - dead;
    }

    /** No edge leads into what was freed. */
    method RunPass(ids: seq<Hash>)
      requires Valid() && NoDangling() && Distinct(ids) && forall h :: h in ids ==> Evictable(h)
      modifies this`window, this`live, Roots()
      ensures window == old(window) - Elements(ids) && live == old(live) - old(Objects(Elements(ids)))
      ensures Valid() && NoDangling() && Roots() <= old(Roots())
      ensures forall o :: o in Roots() ==> EdgesCut(o, old(Objects(Elements(ids))))
    {
      hide Roots, Objects, Evictable, Held;
      ghost var dead := Objects(Elements(ids));
      TwoPhases(ids);
      forall o, t | o in Roots() && t in o.Targets() && t != null ensures t in live {
        assert o in old(Roots()) && EdgesCut(o, dead);
        assert t in old(o.Targets()) && t !in dead;
      }
    }

    /** Whatever was held stays live and held. */
    method RunPassKeeping(ids: seq<Hash>)
      requires Valid() && NoDangling() && Distinct(ids) && forall h :: h in ids ==> Evictable(h)
      modifies this`window, this`live, Roots()
      ensures window == old(window) - Elements(ids) && live == old(live) - old(Objects(Elements(ids)))
      ensures Valid() && NoDangling() && Roots() <= old(Roots())
      ensures forall o :: o in Roots() ==> EdgesCut(o, old(Objects(Elements(ids))))
      ensures forall v :: v in old(live) && old(Held(v)) ==> v in live && Held(v)
    {
      hide Evictable, NoDangling, Objects, Valid;
      KeptApart(Elements(ids));
      ghost var dead := Objects(Elements(ids));
      RunPass(ids);
      forall v | v in old(live) && old(Held(v)) ensures Held(v) {
        if v != best && v != genesis {
          var h :| h in mapBlockIndex && mapBlockIndex[h] != null &&
                   (v == mapBlockIndex[h] || v in old(mapBlockIndex[h].Targets()));
          assert mapBlockIndex[h] in Roots();
          assert EdgesCut(mapBlockIndex[h], dead);
        }
      }
    }

    /** A second pass right after the first would find nothing. */
    method RunPassFully(ids: seq<Hash>)
      requires Runs() && Valid() && NoDangling() && Distinct(ids) && forall h :: h in ids <==> Evictable(h)
      modifies this`window, this`live, Roots()
      ensures window == old(window) - Elements(ids) && live == old(live) - old(Objects(Elements(ids)))
      ensures Valid() && NoDangling() && Roots() <= old(Roots())
      ensures forall o :: o in Roots() ==> EdgesCut(o, old(Objects(Elements(ids))))
      ensures forall v :: v in old(live) && old(Held(v)) ==> v in live
      ensures forall h :: !Evictable(h)
    {
      ghost var kept := window - Elements(ids);
      assert forall h :: h in kept ==> kept[h] in live;
      hide Deep, Held, NoDangling, Objects, Roots, Valid;
      RunPassKeeping(ids);
      forall h | h in window ensures Evictable(h) ==> old(Evictable(h)) {
        var v := kept[h];
        assert window[h] == v && old(window)[h] == v && v in old(live);
        assert old(Held(v)) ==> Held(v);
      }
    }

    /** RR4EvictBelowFloorInto: frees exactly the evictable objects, and leaves no edge into what it freed. */
    method EvictBelowFloor() returns (ghost freed: set<Hash>)
      requires Valid() && NoDangling()
      modifies this`window, this`live, Roots()
      ensures Valid() && NoDangling()
      ensures forall h :: h in freed <==> old(Evictable(h))
      ensures window == old(window) - freed && live == old(live) - old(Objects(freed))
      ensures forall o :: o in Roots() ==> o in old(Roots()) && EdgesCut(o, old(Objects(freed)))
      ensures forall v :: v in old(live) && old(Held(v)) ==> v in live
      ensures forall h :: !Evictable(h)
    {
      hide Held, NoDangling, Deep, Evictable;
      if !Runs() { IdleOtherwise(); }
      freed := {};
      assert Objects(freed) == {} && window - freed == window;
      if !ready {
        return;
      }
      if |window| <= 1 {
        return;
      }
      if TipHeight() < 0 {
        return;
      }
      if TipHeight() - KeepWindow() <= 0 {
        return;
      }
      var ids := CollectVictims();
      freed := Elements(ids);
      if ids == [] {
        return;
      }
      RunPassFully(ids);
    }
  }
}
