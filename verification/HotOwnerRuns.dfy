/**
 Every interleaving of threads over one owner.  A step is one locked region; what
 a thread does between its two locked regions touches no shared state, so its
 outcome is a parameter of the step that completes it.
 */
module HotOwnerRuns {
  import opened Options
  import opened HotOwnerModel

  type ThreadId = nat
  type Slot = nat

  /** Why a thread materializes: to make a hash resident, or to pin it into a handle. */
  datatype Purpose = EnsureResident | PinInto(slot: Slot)

  /** A thread between its first and its last locked region. */
  datatype InFlight = InFlight(hash: Hash, purpose: Purpose, token: Token)

  datatype World = World(
    owner: Owner,
    threads: map<ThreadId, InFlight>,
    handles: map<Slot, Hash>)            // the live move-only handles

  /** Locked regions that involve no thread in flight and no handle. */
  datatype OwnerOp =
    | RawRequest(hash: Hash)
    | RawPublish(token: Token, result: Materialized)
    | RawReleasePin(hash: Hash)
    | MakeAnchor(hash: Hash)
    | EvictOne(hash: Hash)
    | EvictBelow(floor: int)
    | Build(height: int)
    | AdoptObject(hash: Hash, obj: Option<Obj>, anchor: bool)
    | ForceRelease(hash: Hash)
    | ChangeGeneration(generation: nat)

  datatype Event =
    | Begin(thread: ThreadId, hash: Hash, purpose: Purpose)
    | Complete(thread: ThreadId, result: Materialized)
    | Lookup(slot: Slot, hash: Hash)
    | Reset(slot: Slot)
    | Move(from: Slot, to: Slot)
    | Call(op: OwnerOp)

  // ---------------------------------------------------------------- steps

  function Take(w: World, slot: Slot, h: Hash): World
    requires h in w.owner.resident
  {
    w.(owner := AddPin(w.owner, h), handles := w.handles[slot := h])
  }

  function ResetHandle(w: World, slot: Slot): World {
    if slot in w.handles
    then w.(owner := ReleasePin(w.owner, w.handles[slot]), handles := w.handles - {slot})
    else w
  }

  function MoveHandle(w: World, from: Slot, to: Slot): World {
    if from == to then w
    else
      var w1 := ResetHandle(w, to);
      if from in w1.handles then w1.(handles := (w1.handles - {from})[to := w1.handles[from]]) else w1
  }

  function BeginStep(w: World, t: ThreadId, h: Hash, p: Purpose): (r: (World, Status)) {
    if t in w.threads then (w, MaterializationPending)
    else
      var (o, st, token) := Request(w.owner, h);
      var w1 := w.(owner := o);
      if st != OK then (w1.(threads := w.threads[t := InFlight(h, p, token)]), st)
      else if p.PinInto? then (Take(w1, p.slot, h), OK)
      else (w1, OK)
  }

  /** Pin's second look: a peer may have published the same hash first. */
  predicate PeerPublished(o: Owner, h: Hash) {
    && h in o.resident && o.resident[h].materialized
    && Compatible(o.resident[h].residentGen, o.currentGeneration)
  }

  function CompleteStep(w: World, t: ThreadId, m: Materialized): (r: (World, Status)) {
    if t !in w.threads then (w, NotResident)
    else
      var f := w.threads[t];
      var w0 := w.(threads := w.threads - {t});
      if !m.found then (w0.(owner := ClearPending(w.owner, f.token)), MaterializationUnavailable)
      else
        var (o, st) := Publish(w.owner, f.token, m);
        var w1 := w0.(owner := o);
        if f.purpose.EnsureResident? then (w1, st)
        else if st != OK && !PeerPublished(o, f.hash) then (w1, st)
        else if f.hash !in o.resident || !o.resident[f.hash].materialized then (w1, NotResident)
        else (Take(w1, f.purpose.slot, f.hash), OK)
  }

  /** A caller builds an object of its own, to be adopted later. */
  function BuildObject(o: Owner, height: int): Owner {
    o.(heap := o.heap[o.nextObj := height], nextObj := o.nextObj + 1)
  }

  function Apply(o: Owner, op: OwnerOp): Owner {
    match op
    case RawRequest(h) => Request(o, h).0
    case RawPublish(token, m) => Publish(o, token, m).0
    case RawReleasePin(h) => ReleasePin(o, h)
    case MakeAnchor(h) => PinPermanent(o, h)
    case EvictOne(h) => Evict(o, h).0
    case EvictBelow(floor) => EvictBelowFloor(o, floor)
    case Build(height) => BuildObject(o, height)
    case AdoptObject(h, obj, anchor) => Adopt(o, h, obj, anchor).0
    case ForceRelease(h) => ReleaseOwned(o, h).0
    case ChangeGeneration(g) => o.(currentGeneration := g)
  }

  function LookupStep(w: World, slot: Slot, h: Hash): World {
    if h in w.owner.resident && w.owner.resident[h].materialized then Take(w, slot, h) else w
  }

  function Step(w: World, e: Event): World {
    match e
    case Begin(t, h, p) => BeginStep(w, t, h, p).0
    case Complete(t, m) => CompleteStep(w, t, m).0
    case Lookup(slot, h) => LookupStep(w, slot, h)
    case Reset(slot) => ResetHandle(w, slot)
    case Move(from, to) => MoveHandle(w, from, to)
    case Call(op) => w.(owner := Apply(w.owner, op))
  }

  /** The caller's side of AdoptOwned; every other event is unconstrained. */
  ghost predicate Wellformed(w: World, e: Event) {
    e.Call? && e.op.AdoptObject? ==> Adoptable(w.owner, e.op.hash, e.op.obj)
  }

  ghost predicate Next(w: World, e: Event, w': World) {
    Wellformed(w, e) && w' == Step(w, e)
  }

  /** Worlds ws[0], ws[1], ... joined by the events es[0], es[1], ... */
  ghost predicate Run(ws: seq<World>, es: seq<Event>) {
    && |ws| == |es| + 1
    && Valid(ws[0].owner)
    && forall i :: 0 <= i < |es| ==> Next(ws[i], es[i], ws[i + 1])
  }

  // ---------------------------------------------------------------- the invariant over every run

  lemma ReleasePinValid(o: Owner, h: Hash)
    requires Valid(o)
    ensures Valid(ReleasePin(o, h))
  {
    if h in o.resident && o.resident[h].pins > 0 {
      SameObjectsValid(o, h, o.resident[h].(pins := o.resident[h].pins - 1));
    }
  }

  lemma AddPinValid(o: Owner, h: Hash)
    requires Valid(o) && h in o.resident && o.resident[h].materialized
    ensures Valid(AddPin(o, h))
  {
    SameObjectsValid(o, h, o.resident[h].(pins := o.resident[h].pins + 1));
  }

  lemma BuildValid(o: Owner, height: int)
    requires Valid(o)
    ensures Valid(BuildObject(o, height))
  {
    var o' := BuildObject(o, height);
    forall g, x ensures Owns(o', g, x) <==> Owns(o, g, x) {}
    forall g, x ensures AtHeight(o', g, x) <==> AtHeight(o, g, x) {
      if g in o.resident { assert EntryValid(o, o.resident[g]); }
    }
  }

  lemma GenerationValid(o: Owner, g: nat)
    requires Valid(o)
    ensures Valid(o.(currentGeneration := g))
  {
    var o' := o.(currentGeneration := g);
    forall h, x ensures AtHeight(o', h, x) <==> AtHeight(o, h, x) {}
    forall h, x ensures Owns(o', h, x) <==> Owns(o, h, x) {}
  }

  lemma ApplyValid(o: Owner, op: OwnerOp)
    requires Valid(o) && (op.AdoptObject? ==> Adoptable(o, op.hash, op.obj))
    ensures Valid(Apply(o, op))
  {
    match op
    case RawRequest(h) => RequestValid(o, h);
    case RawPublish(token, m) => PublishValid(o, token, m);
    case RawReleasePin(h) => ReleasePinValid(o, h);
    case MakeAnchor(h) => SameObjectsValid(o, h, EntryOf(o, h).(anchor := true));
    case EvictOne(h) => if Evict(o, h).1 == OK { DropValid(o, h); }
    case EvictBelow(floor) => DropSetValid(o, Victims(o, floor));
    case Build(height) => BuildValid(o, height);
    case AdoptObject(h, obj, anchor) => AdoptValid(o, h, obj, anchor);
    case ForceRelease(h) => if h in o.resident { DropValid(o, h); }
    case ChangeGeneration(g) => GenerationValid(o, g);
  }

  lemma CompleteValid(w: World, t: ThreadId, m: Materialized)
    requires Valid(w.owner)
    ensures Valid(CompleteStep(w, t, m).0.owner)
  {
    if t in w.threads {
      var f := w.threads[t];
      if !m.found {
        var h := f.token.hash;
        if ClearPending(w.owner, f.token) != w.owner {
          SameObjectsValid(w.owner, h, w.owner.resident[h].(pending := false, tokenSeq := 0));
        }
      } else {
        PublishValid(w.owner, f.token, m);
        var o := Publish(w.owner, f.token, m).0;
        if f.hash in o.resident && o.resident[f.hash].materialized { AddPinValid(o, f.hash); }
      }
    }
  }

  lemma StepValid(w: World, e: Event, w': World)
    requires Valid(w.owner) && Next(w, e, w')
    ensures Valid(w'.owner)
  {
    match e
    case Begin(t, h, p) =>
      RequestValid(w.owner, h);
      if Request(w.owner, h).1 == OK { AddPinValid(Request(w.owner, h).0, h); }
    case Complete(t, m) => CompleteValid(w, t, m);
    case Lookup(slot, h) =>
      if h in w.owner.resident && w.owner.resident[h].materialized { AddPinValid(w.owner, h); }
    case Reset(slot) => if slot in w.handles { ReleasePinValid(w.owner, w.handles[slot]); }
    case Move(from, to) => if to in w.handles { ReleasePinValid(w.owner, w.handles[to]); }
    case Call(op) => ApplyValid(w.owner, op);
  }

  /** In every reachable state the height index is exact, objects are singly owned, pending seqs distinct. */
  lemma {:induction false} EveryStateValid(ws: seq<World>, es: seq<Event>, n: nat)
    requires Run(ws, es) && n <= |es|
    ensures Valid(ws[n].owner)
    decreases n
  {
    if n > 0 {
      EveryStateValid(ws, es, n - 1);
      StepValid(ws[n - 1], es[n - 1], ws[n]);
    }
  }
}
