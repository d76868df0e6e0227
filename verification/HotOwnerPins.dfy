/** Pin counts mirror the live handles, so the object behind a handle outlives it. */
module HotOwnerPins {
  import opened Options
  import opened HotOwnerModel
  import opened HotOwnerRuns

  function Claims(handles: map<Slot, Hash>, h: Hash): set<Slot> {
    set k | k in handles && handles[k] == h
  }

  function Pins(o: Owner, h: Hash): nat {
    EntryOf(o, h).pins
  }

  /** Every entry is pinned exactly as often as handles claim it. */
  ghost predicate Balanced(w: World) {
    forall h :: Pins(w.owner, h) == |Claims(w.handles, h)|
  }

  // ---------------------------------------------------------------- counting claims

  lemma ClaimAdded(handles: map<Slot, Hash>, slot: Slot, h: Hash, g: Hash)
    requires slot !in handles
    ensures |Claims(handles[slot := h], g)| == |Claims(handles, g)| + if g == h then 1 else 0
  {
    var after := Claims(handles[slot := h], g);
    assert after == if g == h then Claims(handles, g) + {slot} else Claims(handles, g);
  }

  lemma ClaimRemoved(handles: map<Slot, Hash>, slot: Slot, g: Hash)
    requires slot in handles
    ensures |Claims(handles - {slot}, g)| == |Claims(handles, g)| - if g == handles[slot] then 1 else 0
  {
    assert slot in Claims(handles, handles[slot]);
    assert Claims(handles - {slot}, g)
        == if g == handles[slot] then Claims(handles, g) - {slot} else Claims(handles, g);
  }

  // ---------------------------------------------------------------- one step

  /** A pin taken through a handle keeps the balance exactly when the handle was empty. */
  lemma TakeBalances(w: World, slot: Slot, h: Hash)
    requires Balanced(w) && h in w.owner.resident
    ensures Balanced(Take(w, slot, h)) <==> slot !in w.handles
  {
    var w' := Take(w, slot, h);
    assert forall g :: Pins(w'.owner, g) == Pins(w.owner, g) + if g == h then 1 else 0;
    if slot !in w.handles {
      forall g ensures Pins(w'.owner, g) == |Claims(w'.handles, g)| { ClaimAdded(w.handles, slot, h, g); }
    } else {
      var g := w.handles[slot];
      var rest := w.handles - {slot};
      ClaimRemoved(w.handles, slot, g);
      ClaimAdded(rest, slot, h, g);
      assert rest[slot := h] == w'.handles;
      assert Pins(w'.owner, g) != |Claims(w'.handles, g)|;
    }
  }

  lemma ResetBalances(w: World, slot: Slot)
    requires Balanced(w)
    ensures Balanced(ResetHandle(w, slot))
  {
    if slot in w.handles {
      var h := w.handles[slot];
      var w' := ResetHandle(w, slot);
      assert slot in Claims(w.handles, h);
      assert Pins(w.owner, h) > 0;
      forall g ensures Pins(w'.owner, g) == |Claims(w'.handles, g)| { ClaimRemoved(w.handles, slot, g); }
    }
  }

  lemma MoveBalances(w: World, from: Slot, to: Slot)
    requires Balanced(w)
    ensures Balanced(MoveHandle(w, from, to))
  {
    if from != to {
      ResetBalances(w, to);
      var w1 := ResetHandle(w, to);
      if from in w1.handles {
        var h := w1.handles[from];
        var w' := MoveHandle(w, from, to);
        forall g ensures Pins(w'.owner, g) == |Claims(w'.handles, g)| {
          ClaimRemoved(w1.handles, from, g);
          ClaimAdded(w1.handles - {from}, to, h, g);
        }
      }
    }
  }

  /** A step on the owner alone keeps the balance exactly when it keeps every pin count. */
  lemma OwnerStepBalances(w: World, o: Owner)
    requires Balanced(w)
    ensures Balanced(w.(owner := o)) <==> forall h :: Pins(o, h) == Pins(w.owner, h)
  {
    assert forall h :: Pins(w.owner, h) == |Claims(w.handles, h)|;
    var w' := w.(owner := o);
    if forall h :: Pins(o, h) == Pins(w.owner, h) {
      assert forall h :: Pins(w'.owner, h) == |Claims(w'.handles, h)|;
    } else {
      var h :| Pins(o, h) != Pins(w.owner, h);
      assert Pins(w'.owner, h) != |Claims(w'.handles, h)|;
    }
  }

  /** The completion installs the object the thread waits for, or a peer has done so. */
  predicate Pinnable(o: Owner, f: InFlight, m: Materialized) {
    if Publishable(o, f.token, m)
    then f.hash == f.token.hash || (f.hash in o.resident && o.resident[f.hash].materialized)
    else PeerPublished(o, f.hash)
  }

  /** The events a client may use freely, and when it may use the others. */
  predicate Disciplined(w: World, e: Event) {
    match e
    case Begin(t, h, p) =>
      t !in w.threads && p.PinInto? && EntryOf(w.owner, h).materialized ==> p.slot !in w.handles
    case Complete(t, m) =>
      t in w.threads && w.threads[t].purpose.PinInto? && m.found && Pinnable(w.owner, w.threads[t], m)
      ==> w.threads[t].purpose.slot !in w.handles
    case Lookup(slot, h) =>
      h in w.owner.resident && w.owner.resident[h].materialized ==> slot !in w.handles
    case Call(RawReleasePin(h)) => Pins(w.owner, h) == 0
    case Call(ForceRelease(h)) => Pins(w.owner, h) == 0
    case _ => true
  }

  lemma BeginBalances(w: World, t: ThreadId, h: Hash, p: Purpose)
    requires Balanced(w)
    ensures Balanced(BeginStep(w, t, h, p).0) <==> Disciplined(w, Begin(t, h, p))
  {
    if t !in w.threads {
      var o := Request(w.owner, h).0;
      var w1 := w.(owner := o);
      OwnerStepBalances(w, o);
      assert Balanced(w1);
      if Request(w.owner, h).1 == OK {
        if p.PinInto? { TakeBalances(w1, p.slot, h); }
      } else {
        assert Balanced(w1.(threads := w.threads[t := InFlight(h, p, Request(w.owner, h).2)]));
      }
    }
  }

  lemma CompleteBalances(w: World, t: ThreadId, m: Materialized)
    requires Balanced(w)
    ensures Balanced(CompleteStep(w, t, m).0) <==> Disciplined(w, Complete(t, m))
  {
    if t in w.threads {
      var f := w.threads[t];
      var w0 := w.(threads := w.threads - {t});
      assert Balanced(w0);
      if !m.found {
        OwnerStepBalances(w0, ClearPending(w.owner, f.token));
      } else {
        var o := Publish(w.owner, f.token, m).0;
        OwnerStepBalances(w0, o);
        var w1 := w0.(owner := o);
        assert Balanced(w1);
        if f.purpose.PinInto? && f.hash in o.resident { TakeBalances(w1, f.purpose.slot, f.hash); }
      }
    }
  }

  lemma ApplyPins(o: Owner, op: OwnerOp, h: Hash)
    ensures op.RawReleasePin? && op.hash == h ==>
              Pins(Apply(o, op), h) == if Pins(o, h) > 0 then Pins(o, h) - 1 else 0
    ensures op.ForceRelease? && op.hash == h ==> Pins(Apply(o, op), h) == 0
    ensures !((op.RawReleasePin? || op.ForceRelease?) && op.hash == h) ==> Pins(Apply(o, op), h) == Pins(o, h)
  {
  }

  lemma CallBalances(w: World, op: OwnerOp)
    requires Balanced(w)
    ensures Balanced(w.(owner := Apply(w.owner, op))) <==> Disciplined(w, Call(op))
  {
    OwnerStepBalances(w, Apply(w.owner, op));
    forall h { ApplyPins(w.owner, op, h); }
  }

  /** Pin counts equal live handles after a step exactly when the step was disciplined. */
  lemma BalancedExactlyIfDisciplined(w: World, e: Event)
    requires Balanced(w)
    ensures Balanced(Step(w, e)) <==> Disciplined(w, e)
  {
    match e
    case Begin(t, h, p) => BeginBalances(w, t, h, p);
    case Complete(t, m) => CompleteBalances(w, t, m);
    case Lookup(slot, h) => if h in w.owner.resident { TakeBalances(w, slot, h); }
    case Reset(slot) => ResetBalances(w, slot);
    case Move(from, to) => MoveBalances(w, from, to);
    case Call(op) => CallBalances(w, op);
  }

  // ---------------------------------------------------------------- whole runs

  ghost predicate DisciplinedRun(ws: seq<World>, es: seq<Event>) {
    && Run(ws, es)
    && Balanced(ws[0])
    && forall i :: 0 <= i < |es| ==> Disciplined(ws[i], es[i])
  }

  lemma {:induction false} EveryStateBalanced(ws: seq<World>, es: seq<Event>, n: nat)
    requires DisciplinedRun(ws, es) && n <= |es|
    ensures Balanced(ws[n])
    decreases n
  {
    if n > 0 {
      EveryStateBalanced(ws, es, n - 1);
      assert Next(ws[n - 1], es[n - 1], ws[n]);
      BalancedExactlyIfDisciplined(ws[n - 1], es[n - 1]);
    }
  }

  lemma CompleteKeepsPinned(w: World, t: ThreadId, m: Materialized, h: Hash)
    requires Valid(w.owner) && Pins(w.owner, h) > 0
    ensures EntryOf(CompleteStep(w, t, m).0.owner, h).index == EntryOf(w.owner, h).index
  {
    assert EntryValid(w.owner, w.owner.resident[h]);
    if t in w.threads && m.found {
      assert EntryOf(Publish(w.owner, w.threads[t].token, m).0, h) == EntryOf(w.owner, h);
    }
  }

  lemma ApplyKeepsPinned(o: Owner, op: OwnerOp, h: Hash)
    requires Valid(o) && Pins(o, h) > 0
    requires !(op.ForceRelease? && op.hash == h)
    ensures EntryOf(Apply(o, op), h).index == EntryOf(o, h).index
  {
    assert EntryValid(o, o.resident[h]);
  }

  /** No disciplined step frees or replaces a pinned object. */
  lemma PinnedObjectKept(w: World, e: Event, h: Hash)
    requires Valid(w.owner) && Disciplined(w, e)
    requires Pins(w.owner, h) > 0
    ensures EntryOf(Step(w, e).owner, h).index == EntryOf(w.owner, h).index
    ensures EntryOf(w.owner, h).index.Some?
  {
    assert EntryValid(w.owner, w.owner.resident[h]);
    if e.Complete? {
      CompleteKeepsPinned(w, e.thread, e.result, h);
    } else if e.Call? {
      ApplyKeepsPinned(w.owner, e.op, h);
    }
  }

  lemma ApplyKeepsHeights(o: Owner, op: OwnerOp, x: Obj)
    requires Valid(o) && x in o.heap && x in Apply(o, op).heap
    ensures Apply(o, op).heap[x] == o.heap[x]
  {
  }

  lemma HeightsNeverChange(w: World, e: Event, x: Obj)
    requires Valid(w.owner)
    requires x in w.owner.heap && x in Step(w, e).owner.heap
    ensures Step(w, e).owner.heap[x] == w.owner.heap[x]
  {
    if e.Call? { ApplyKeepsHeights(w.owner, e.op, x); }
  }

  /**
   While some handle claims h, through any moves and resets of handles, the object behind it
   stays the same, stays allocated and keeps its height.
   */
  lemma {:induction false} ClaimedObjectLives(ws: seq<World>, es: seq<Event>, i: nat, j: nat, h: Hash)
    requires DisciplinedRun(ws, es) && i <= j <= |es|
    requires forall k :: i <= k <= j ==> Claims(ws[k].handles, h) != {}
    ensures EntryOf(ws[i].owner, h).index.Some?
    ensures var x := EntryOf(ws[i].owner, h).index.value;
            && EntryOf(ws[j].owner, h).index == Some(x)
            && x in ws[i].owner.heap && x in ws[j].owner.heap
            && ws[i].owner.heap[x] == ws[j].owner.heap[x]
    decreases j - i
  {
    EveryStateBalanced(ws, es, i);
    EveryStateValid(ws, es, i);
    assert Claims(ws[i].handles, h) != {};
    assert Pins(ws[i].owner, h) > 0;
    assert EntryValid(ws[i].owner, ws[i].owner.resident[h]);
    if i < j {
      assert Next(ws[i], es[i], ws[i + 1]);
      PinnedObjectKept(ws[i], es[i], h);
      ClaimedObjectLives(ws, es, i + 1, j, h);
      HeightsNeverChange(ws[i], es[i], EntryOf(ws[i].owner, h).index.value);
    }
  }

  // ---------------------------------------------------------------- anchors

  /** The entry holds an object and is anchored. */
  predicate Anchored(o: Owner, h: Hash, x: Obj) {
    h in o.resident && o.resident[h].anchor && o.resident[h].index == Some(x)
  }

  /** What takes the anchor off h: a forced release, or an adoption that says so. */
  predicate Unanchors(e: Event, h: Hash) {
    e.Call? && ((e.op.ForceRelease? && e.op.hash == h) || (e.op.AdoptObject? && e.op.hash == h && !e.op.anchor))
  }

  lemma ApplyKeepsAnchor(o: Owner, op: OwnerOp, h: Hash, x: Obj)
    requires Valid(o) && Anchored(o, h, x) && !Unanchors(Call(op), h)
    ensures Anchored(Apply(o, op), h, x)
  {
    assert EntryValid(o, o.resident[h]);
  }

  lemma CompleteKeepsAnchor(w: World, t: ThreadId, m: Materialized, h: Hash, x: Obj)
    requires Valid(w.owner) && Anchored(w.owner, h, x)
    ensures Anchored(CompleteStep(w, t, m).0.owner, h, x)
  {
    assert EntryValid(w.owner, w.owner.resident[h]);
    if t in w.threads && m.found {
      assert EntryOf(Publish(w.owner, w.threads[t].token, m).0, h) == EntryOf(w.owner, h);
    }
  }

  /** No other step, evictions included, takes the anchor off or another object behind it. */
  lemma AnchorKept(w: World, e: Event, h: Hash, x: Obj)
    requires Valid(w.owner) && Anchored(w.owner, h, x) && !Unanchors(e, h)
    ensures Anchored(Step(w, e).owner, h, x)
  {
    assert EntryValid(w.owner, w.owner.resident[h]);
    if e.Complete? {
      CompleteKeepsAnchor(w, e.thread, e.result, h, x);
    } else if e.Call? {
      ApplyKeepsAnchor(w.owner, e.op, h, x);
    }
  }

  /** Until it is unanchored, an anchored hash keeps its object, live and at its height, whatever runs in between. */
  lemma {:induction false} AnchoredObjectLives(ws: seq<World>, es: seq<Event>, i: nat, j: nat, h: Hash, x: Obj)
    requires Run(ws, es) && i <= j <= |es| && Anchored(ws[i].owner, h, x)
    requires forall k :: i <= k < j ==> !Unanchors(es[k], h)
    ensures Anchored(ws[j].owner, h, x)
    ensures x in ws[i].owner.heap && x in ws[j].owner.heap && ws[i].owner.heap[x] == ws[j].owner.heap[x]
    decreases j - i
  {
    EveryStateValid(ws, es, i);
    assert EntryValid(ws[i].owner, ws[i].owner.resident[h]);
    if i < j {
      assert Next(ws[i], es[i], ws[i + 1]);
      AnchorKept(ws[i], es[i], h, x);
      AnchoredObjectLives(ws, es, i + 1, j, h, x);
      HeightsNeverChange(ws[i], es[i], x);
    }
  }
}
