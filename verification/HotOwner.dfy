/** The owner object itself: its fields, and its locked methods proved against the model. */
module HotOwner {
  import opened Options
  import opened HotOwnerModel
  import opened HotOwnerRuns
  import opened Iteration

  lemma AppendDistinct(a: seq<Hash>, b: seq<Hash>)
    requires Distinct(a) && Distinct(b)
    requires forall h :: h in b ==> h !in a
    ensures Distinct(a + b)
  {
    forall i, j | 0 <= i < j < |a + b| ensures (a + b)[i] != (a + b)[j] {
      if i < |a| <= j { assert a[i] in a && b[j - |a|] in b; }
    }
  }

  class BlockIndexHotOwner {
    var resident: map<Hash, Entry>
    var byHeight: HeightIndex
    var currentGeneration: nat
    var nextTokenSeq: nat
    var heap: map<Obj, int>
    var nextObj: nat

    ghost function State(): Owner
      reads this
    {
      Owner(resident, byHeight, currentGeneration, nextTokenSeq, heap, nextObj)
    }

    constructor ()
      ensures State() == EMPTY_OWNER && Valid(State())
      ensures resident == map[] && byHeight == map[] && heap == map[] && currentGeneration == 0 && nextTokenSeq == 1
    {
      resident, byHeight := map[], map[];
      currentGeneration, nextTokenSeq := 0, 1;
      heap, nextObj := map[], 0;
    }

    method RequestMaterializationLocked(h: Hash) returns (st: Status, token: Token)
      modifies this
      ensures (State(), st, token) == Request(old(State()), h)
      ensures st == if h in old(resident) && old(resident)[h].materialized then OK else MaterializationPending
      ensures h in resident && token == Token(h, currentGeneration, resident[h].tokenSeq)
      ensures h in old(resident) && (old(resident)[h].pending || old(resident)[h].materialized) ==>
                State() == old(State())
      ensures h in old(resident) && !old(resident)[h].pending && !old(resident)[h].materialized ==>
                resident == old(resident)[h := old(resident)[h].(pending := true, tokenSeq := old(nextTokenSeq))]
                && nextTokenSeq == old(nextTokenSeq) + 1
      ensures h !in old(resident) ==>
                resident == old(resident)[h := Entry(None, 0, 0, false, false, true, old(nextTokenSeq))]
                && nextTokenSeq == old(nextTokenSeq) + 1
      ensures unchanged(`byHeight, `currentGeneration, `heap, `nextObj)
    {
      if h !in resident {
        resident := resident[h := FRESH_ENTRY];
      }
      var e := resident[h];
      if !e.pending && !e.materialized {
        e := e.(pending := true, tokenSeq := nextTokenSeq);
        resident := resident[h := e];
        nextTokenSeq := nextTokenSeq + 1;
      }
      assert resident == old(resident)[h := e];
      token := Token(h, currentGeneration, e.tokenSeq);
      st := if e.materialized then OK else MaterializationPending;
    }

    /** The entry is pending for just this request. */
    ghost predicate Awaited(token: Token)
      reads this
    {
      token.hash in resident && resident[token.hash].pending && resident[token.hash].tokenSeq == token.tokenSeq
    }

    method PublishMaterializedLocked(token: Token, m: Materialized) returns (st: Status)
      modifies this
      ensures (State(), st) == Publish(old(State()), token, m)
      ensures st == OK <==> old(Awaited(token)) && m.found && token.tokenSeq != 0
                            && (m.generation == 0 || currentGeneration == 0 || m.generation == currentGeneration)
      ensures st == MaterializationUnavailable <==> !m.found || token.tokenSeq == 0
      ensures st != OK ==> State() == old(State())
      ensures st == OK ==>
                && resident == old(resident)[token.hash := old(resident)[token.hash].(
                     index := Some(old(nextObj)), residentGen := m.generation, materialized := true, pending := false,
                     tokenSeq := 0)]
                && heap == old(heap)[old(nextObj) := m.height] && nextObj == old(nextObj) + 1
                && forall g, x :: Indexed(byHeight, g, x) <==>
                     Indexed(old(byHeight), g, x) || (g == token.hash && x == m.height)
    {
      if token.tokenSeq == 0 || !m.found {
        return MaterializationUnavailable;
      }
      if token.hash !in resident {
        return GenerationMismatch;
      }
      var e := resident[token.hash];
      if !e.pending || e.tokenSeq != token.tokenSeq {
        return GenerationMismatch;
      }
      if m.generation != 0 && currentGeneration != 0 && m.generation != currentGeneration {
        return GenerationMismatch;
      }
      var idx := nextObj;
      nextObj := nextObj + 1;
      heap := heap[idx := m.height];
      e := e.(index := Some(idx), residentGen := m.generation, materialized := true, pending := false, tokenSeq := 0);
      resident := resident[token.hash := e];
      IndexResidentLocked(token.hash, m.height);
      st := OK;
    }

    method IndexResidentLocked(h: Hash, height: int)
      modifies this`byHeight
      ensures byHeight == IndexAt(old(byHeight), height, h)
    {
      if height !in byHeight {
        byHeight := byHeight[height := {}];
      }
      byHeight := byHeight[height := byHeight[height] + {h}];
    }

    method UnindexResidentLocked(h: Hash, height: int)
      modifies this`byHeight
      ensures byHeight == UnindexAt(old(byHeight), height, h)
    {
      if height !in byHeight {
        return;
      }
      byHeight := byHeight[height := byHeight[height] - {h}];
      if byHeight[height] == {} {
        byHeight := byHeight - {height};
      }
    }

    /** A world in which one thread, busy or not, works on this owner with one handle. */
    ghost function Alone(inFlight: map<ThreadId, InFlight>, out: BlockIndexHotHandle): World
      reads this, out
    {
      var none: map<Slot, Hash> := map[];
      World(State(), inFlight, if out.owner == this then none[0 := out.hash] else none)
    }

    /** One claim more on h, and nothing else. */
    twostate predicate Claimed(h: Hash)
      reads this
    {
      && h in old(resident)
      && resident == old(resident)[h := old(resident)[h].(pins := old(resident)[h].pins + 1)]
      && unchanged(`byHeight, `currentGeneration, `nextTokenSeq, `heap, `nextObj)
    }

    /** A pin and the handle that stands for it. */
    method Claim(h: Hash, out: BlockIndexHotHandle)
      requires h in resident
      modifies this`resident, out
      ensures Claimed(h) && State() == AddPin(old(State()), h)
      ensures out.owner == this && out.hash == h
    {
      resident := resident[h := resident[h].(pins := resident[h].pins + 1)];
      out.owner, out.hash := this, h;
    }

    /** Pin up to the end of its first locked region; a claim taken there is in the caller's handle. */
    method PinRequest(h: Hash, out: BlockIndexHotHandle?) returns (st: Status, token: Token)
      modifies this, out
      ensures st == PinRequired <==> out == null
      ensures out == null ==> State() == old(State())
      ensures out != null ==>
                && token == Request(old(State()), h).2
                && BeginStep(old(Alone(map[], out)), 0, h, PinInto(0))
                   == (Alone(if st == OK then map[] else map[0 := InFlight(h, PinInto(0), token)], out), st)
                && out.owner == (if st == OK then this else old(out.owner))
                && out.hash == if st == OK then h else old(out.hash)
      ensures st == OK ==> h in old(resident) && old(resident)[h].materialized && Claimed(h)
    {
      if out == null {
        return PinRequired, Token(0, 0, 0);
      }
      st, token := RequestMaterializationLocked(h);
      if st == OK {
        resident := resident[h := resident[h].(pins := resident[h].pins + 1)];
        out.owner, out.hash := this, h;
      }
      assert Alone(map[], out).handles == BeginStep(old(Alone(map[], out)), 0, h, PinInto(0)).0.handles;
    }

    /** Pin from the return of the materializer to its end. */
    method PinFinish(h: Hash, token: Token, m: Materialized, out: BlockIndexHotHandle) returns (st: Status)
      modifies this, out
      ensures CompleteStep(old(Alone(map[0 := InFlight(h, PinInto(0), token)], out)), 0, m) == (Alone(map[], out), st)
      ensures out.owner == (if st == OK then this else old(out.owner))
      ensures out.hash == if st == OK then h else old(out.hash)
      ensures st == OK ==> h in resident && resident[h].materialized && resident[h].pins > 0
      ensures m.found && !old(Awaited(token)) ==>
                (st == OK <==> && h in old(resident) && old(resident)[h].materialized
                               && (|| old(resident)[h].residentGen == 0 || currentGeneration == 0
                                   || old(resident)[h].residentGen == currentGeneration))
      ensures st == OK && !old(Awaited(token)) ==> Claimed(h)
      ensures !m.found ==>
                && st == MaterializationUnavailable
                && resident == (if !old(Awaited(token)) then old(resident)
                                else old(resident)[token.hash := old(resident)[token.hash].(pending := false,
                                                                                            tokenSeq := 0)])
                && unchanged(`byHeight, `currentGeneration, `nextTokenSeq, `heap, `nextObj)
    {
      hide Publish, AddPin;
      ghost var before := Alone(map[0 := InFlight(h, PinInto(0), token)], out);
      assert before.threads - {0} == map[];
      if !m.found {
        if token.hash in resident && resident[token.hash].pending && resident[token.hash].tokenSeq == token.tokenSeq {
          resident := resident[token.hash := resident[token.hash].(pending := false, tokenSeq := 0)];
        }
        return MaterializationUnavailable;
      }
      var pub := PublishMaterializedLocked(token, m);
      if pub != OK {
        if h in resident && resident[h].materialized
           && (resident[h].residentGen == currentGeneration || resident[h].residentGen == 0 || currentGeneration == 0) {
          Claim(h, out);
          assert Alone(map[], out).handles == before.handles[0 := h];
          return OK;
        }
        return pub;
      }
      if h !in resident || !resident[h].materialized {
        return NotResident;
      }
      Claim(h, out);
      assert Alone(map[], out).handles == before.handles[0 := h];
      st := OK;
    }

    method LookupResident(h: Hash, out: BlockIndexHotHandle?) returns (st: Status)
      modifies this, out
      ensures st == if out == null then PinRequired
                    else if h in old(resident) && old(resident)[h].materialized then OK else NotResident
      ensures out == null ==> State() == old(State())
      ensures out != null ==>
                && Alone(map[], out) == Step(old(Alone(map[], out)), Lookup(0, h))
                && out.owner == (if st == OK then this else old(out.owner))
                && out.hash == if st == OK then h else old(out.hash)
      ensures if st == OK then Claimed(h) else State() == old(State())
    {
      if out == null {
        return PinRequired;
      }
      if h !in resident || !resident[h].materialized {
        return NotResident;
      }
      resident := resident[h := resident[h].(pins := resident[h].pins + 1)];
      out.owner, out.hash := this, h;
      assert Alone(map[], out).handles == old(Alone(map[], out)).handles[0 := h];
      st := OK;
    }

    method ReleasePinOf(h: Hash) returns (left: nat)
      modifies this
      ensures State() == ReleasePin(old(State()), h)
      ensures left == EntryOf(State(), h).pins
      ensures h !in old(resident) || old(resident)[h].pins == 0 ==> State() == old(State()) && left == 0
      ensures h in old(resident) && old(resident)[h].pins > 0 ==>
                && resident == old(resident)[h := old(resident)[h].(pins := old(resident)[h].pins - 1)]
                && left == old(resident)[h].pins - 1
      ensures unchanged(`byHeight, `currentGeneration, `nextTokenSeq, `heap, `nextObj)
    {
      if h !in resident {
        return 0;
      }
      if resident[h].pins > 0 {
        resident := resident[h := resident[h].(pins := resident[h].pins - 1)];
      }
      left := resident[h].pins;
    }

    /** The entry, made if there is none, never evicted from now on. */
    method MakePermanent(h: Hash)
      modifies this`resident
      ensures State() == PinPermanent(old(State()), h)
      ensures h in resident && resident[h].anchor
      ensures h in old(resident) ==> resident == old(resident)[h := old(resident)[h].(anchor := true)]
      ensures h !in old(resident) ==> resident == old(resident)[h := Entry(None, 0, 0, false, true, false, 0)]
    {
      if h !in resident {
        resident := resident[h := FRESH_ENTRY];
      }
      resident := resident[h := resident[h].(anchor := true)];
      assert resident == PinPermanent(old(State()), h).resident;
    }

    method EvictResident(h: Hash) returns (st: Status)
      requires Valid(State())
      modifies this
      ensures Valid(State())
      ensures (State(), st) == Evict(old(State()), h)
      ensures st == OK <==> h in old(resident) && old(resident)[h].materialized
                            && old(resident)[h].pins == 0 && !old(resident)[h].anchor
      ensures st == EvictionBlocked <==> h in old(resident) && (old(resident)[h].pins > 0 || old(resident)[h].anchor)
      ensures st != OK ==> State() == old(State())
      ensures st == OK ==> resident == old(resident) - {h} && heap == old(heap) - {old(resident)[h].index.value}
    {
      if h !in resident {
        return NotResident;
      }
      var e := resident[h];
      if e.pins > 0 || e.anchor {
        return EvictionBlocked;
      }
      if !e.materialized {
        return NotResident;
      }
      DropValid(State(), h);
      assert EntryValid(State(), e);
      UnindexResidentLocked(h, heap[e.index.value]);
      heap := heap - {e.index.value};
      resident := resident - {h};
      st := OK;
    }

    /** The eligible residents below the floor, found through the height index. */
    method CollectBelow(floor: int) returns (victims: seq<Hash>)
      requires Valid(State())
      ensures Distinct(victims)
      ensures forall h :: h in victims <==> h in Victims(State(), floor)
    {
      assert forall h, x :: Indexed(byHeight, h, x) <==> AtHeight(State(), h, x);
      forall h | Victim(State(), floor, h) ensures heap[resident[h].index.value] in byHeight {
        assert AtHeight(State(), h, heap[resident[h].index.value]);
        assert Indexed(byHeight, h, heap[resident[h].index.value]);
      }
      victims := [];
      var heights := set x | x in byHeight && x < floor;
      while heights != {}
        invariant heights <= byHeight.Keys
        invariant forall x :: x in heights ==> x < floor
        invariant Distinct(victims)
        invariant forall h :: h in victims <==>
          Victim(State(), floor, h) && heap[resident[h].index.value] !in heights
        decreases heights
      {
        var x := Least(heights);
        var more := CollectAt(x);
        assert forall h :: h in more ==> h !in victims;
        AppendDistinct(victims, more);
        heights := heights - {x};
        victims := victims + more;
      }
    }

    method CollectAt(x: int) returns (victims: seq<Hash>)
      requires Valid(State()) && x in byHeight
      ensures Distinct(victims)
      ensures forall h :: h in victims <==> Victim(State(), x + 1, h) && heap[resident[h].index.value] == x
    {
      victims := [];
      var todo := byHeight[x];
      while todo != {}
        invariant todo <= byHeight[x]
        invariant Distinct(victims)
        invariant forall h :: h in victims <==> Evictable(State(), h) && h in byHeight[x] && h !in todo
        decreases todo
      {
        var h := Least(todo);
        todo := todo - {h};
        assert Indexed(byHeight, h, x) && AtHeight(State(), h, x);
        if h in resident && resident[h].materialized && resident[h].index.Some?
           && !(resident[h].pins > 0 || resident[h].anchor) {
          victims := victims + [h];
        }
      }
      forall h ensures h in byHeight[x] <==> AtHeight(State(), h, x) {
        assert Indexed(byHeight, h, x) <==> AtHeight(State(), h, x);
      }
    }

    /** One pass; the entries gone are exactly the victims, and so is the count. */
    method EvictBelowHeight(floor: int) returns (evicted: nat)
      requires Valid(State())
      modifies this
      ensures Valid(State())
      ensures State() == EvictBelowFloor(old(State()), floor)
      ensures evicted == |Victims(old(State()), floor)|
      ensures forall h :: h in old(resident) ==>
                (h !in resident <==> && old(resident)[h].materialized && old(resident)[h].pins == 0
                                     && !old(resident)[h].anchor && old(heap)[old(resident)[h].index.value] < floor)
      ensures forall h :: h in resident ==> h in old(resident) && resident[h] == old(resident)[h]
    {
      ghost var before := State();
      var victims := CollectBelow(floor);
      EvictBelowFloorIsEvictAll(before, floor, victims);
      evicted := 0;
      var i := 0;
      while i < |victims|
        invariant 0 <= i <= |victims|
        invariant Valid(State())
        invariant EvictAll(before, victims) ==
          (EvictAll(State(), victims[i..]).0, evicted + EvictAll(State(), victims[i..]).1)
      {
        var st := EvictResident(victims[i]);
        if st == OK {
          evicted := evicted + 1;
        }
        i := i + 1;
      }
    }

    /** Only a null pointer is refused; whether the invariant survives depends on who owns the object. */
    method AdoptOwned(h: Hash, obj: Option<Obj>, anchor: bool) returns (st: Status)
      requires Live(State(), obj)
      modifies this
      ensures (State(), st) == Adopt(old(State()), h, obj, anchor)
      ensures old(Valid(State())) ==>
                (Valid(State()) <==> old(Declined(State(), h, obj)) || old(Adoptable(State(), h, obj)))
      ensures st == CorruptMetadata <==> obj.None?
      ensures st == OK || obj.None?
      ensures obj.None? || (h in old(resident) && old(resident)[h].index.Some? && old(resident)[h].index != obj) ==>
                State() == old(State())
      ensures obj.Some? && (h !in old(resident) || old(resident)[h].index.None? || old(resident)[h].index == obj) ==>
                && resident == old(resident)[h := old(EntryOf(State(), h)).(
                     index := obj, materialized := true, pending := false, anchor := anchor)]
                && forall g, x :: Indexed(byHeight, g, x) <==>
                     Indexed(old(byHeight), g, x) || (g == h && x == heap[obj.value])
      ensures unchanged(`currentGeneration, `nextTokenSeq, `heap, `nextObj)
    {
      hide Valid, Adoptable;
      ghost var before := State();
      if Valid(before) { AdoptValidIff(before, h, obj, anchor); }
      if obj.None? {
        return CorruptMetadata;
      }
      if h !in resident {
        resident := resident[h := FRESH_ENTRY];
      } else if resident[h].index.Some? && resident[h].index != obj {
        return OK;
      }
      resident := resident[h := resident[h].(index := obj, materialized := true, pending := false, anchor := anchor)];
      IndexResidentLocked(h, heap[obj.value]);
      st := OK;
      assert resident == Adopt(before, h, obj, anchor).0.resident;
      assert State() == Adopt(before, h, obj, anchor).0;
    }

    method ReleaseOwnedObject(h: Hash) returns (released: bool)
      requires Valid(State())
      modifies this
      ensures Valid(State())
      ensures (State(), released) == ReleaseOwned(old(State()), h)
      ensures released <==> h in old(resident)
      ensures resident == old(resident) - {h}
      ensures heap == if released && old(resident)[h].index.Some? then old(heap) - {old(resident)[h].index.value}
                      else old(heap)
      ensures unchanged(`currentGeneration, `nextTokenSeq, `nextObj)
    {
      if h !in resident {
        return false;
      }
      DropValid(State(), h);
      var e := resident[h];
      assert EntryValid(State(), e);
      if e.index.Some? {
        UnindexResidentLocked(h, heap[e.index.value]);
        heap := heap - {e.index.value};
      }
      resident := resident - {h};
      released := true;
    }

    /** The owner's own self-test: it rebuilds the index from the residents and compares. */
    method HeightIndexConsistentForTesting() returns (consistent: bool)
      requires forall h :: h in resident ==> Live(State(), resident[h].index)
      ensures consistent <==> HeightIndexExact(State())
    {
      var rebuilt: HeightIndex := map[];
      var todo := resident.Keys;
      while todo != {}
        invariant todo <= resident.Keys
        invariant forall h, x :: Indexed(rebuilt, h, x) <==> AtHeight(State(), h, x) && h !in todo
        invariant forall x :: x in rebuilt ==> rebuilt[x] != {}
        decreases todo
      {
        var h := Least(todo);
        todo := todo - {h};
        assert Live(State(), resident[h].index);
        if resident[h].materialized && resident[h].index.Some? {
          rebuilt := IndexAt(rebuilt, heap[resident[h].index.value], h);
        }
      }
      consistent := rebuilt == byHeight;
      if HeightIndexExact(State()) {
        forall x ensures x in rebuilt <==> x in byHeight {
          if x in rebuilt { var h :| h in rebuilt[x]; assert Indexed(rebuilt, h, x); assert Indexed(byHeight, h, x); }
          if x in byHeight { var h :| h in byHeight[x]; assert Indexed(byHeight, h, x); assert Indexed(rebuilt, h, x); }
        }
        forall x | x in rebuilt ensures rebuilt[x] == byHeight[x] {
          forall h ensures h in rebuilt[x] <==> h in byHeight[x] {
            assert Indexed(rebuilt, h, x) <==> Indexed(byHeight, h, x);
          }
        }
        assert rebuilt == byHeight;
      }
    }
  }
  /** A move-only claim on one resident object. */
  class BlockIndexHotHandle {
    var owner: BlockIndexHotOwner?
    var hash: Hash

    constructor ()
      ensures owner == null && hash == 0
    {
      owner, hash := null, 0;
    }

    method Reset()
      modifies this, owner
      ensures owner == null
      ensures old(owner) != null ==> hash == 0 && old(owner).State() == ReleasePin(old(owner.State()), old(hash))
      ensures old(owner) == null ==> hash == old(hash)
    {
      if owner != null {
        var left := owner.ReleasePinOf(hash);
        owner, hash := null, 0;
      }
    }

    /** Move assignment: this handle's own claim is given back first. */
    method MoveFrom(o: BlockIndexHotHandle)
      modifies this, o, owner
      ensures this == o ==> owner == old(owner) && hash == old(hash)
      ensures this != o ==> owner == old(o.owner) && hash == old(o.hash) && o.owner == null && o.hash == 0
      ensures this != o && old(owner) != null ==>
                old(owner).State() == ReleasePin(old(owner.State()), old(hash))
      ensures this == o && owner != null ==> owner.State() == old(owner.State())
    {
      if this != o {
        Reset();
        owner, hash := o.owner, o.hash;
        o.owner, o.hash := null, 0;
      }
    }
  }
}
