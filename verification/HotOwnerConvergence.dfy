/** Concurrent pins of one hash converge on one resident object that exactly one completion installs. */
module HotOwnerConvergence {
  import opened HotOwnerModel
  import opened HotOwnerRuns
  import opened HotOwnerTokens

  predicate Resident(w: World, h: Hash) {
    h in w.owner.resident && w.owner.resident[h].materialized
  }

  /** Tokens name the hash their thread asked for; every request on h can still succeed. */
  ghost predicate OnTrack(w: World, h: Hash) {
    forall t :: t in w.threads ==>
      var f := w.threads[t];
      && f.token.hash == f.hash
      && (f.hash == h ==>
            && h in w.owner.resident
            && var e := w.owner.resident[h];
            if e.materialized then Compatible(e.residentGen, w.owner.currentGeneration)
            else e.pending && e.tokenSeq == f.token.tokenSeq)
  }

  ghost predicate CalmOp(o: Owner, op: OwnerOp, h: Hash) {
    match op
    case EvictOne(g) => g == h ==> Evict(o, h).1 != OK
    case EvictBelow(floor) => h !in Victims(o, floor)
    case AdoptObject(g, _, _) => g != h
    case ForceRelease(g) => g != h
    case ChangeGeneration(g) => g == o.currentGeneration
    case _ => true
  }

  /** No eviction, adoption or release of h, no generation change, no failed materialization of h. */
  ghost predicate Calm(w: World, e: Event, h: Hash) {
    match e
    case Complete(t, m) =>
      t in w.threads && w.threads[t].hash == h ==> m.found && Compatible(m.generation, w.owner.currentGeneration)
    case Call(op) => CalmOp(w.owner, op, h)
    case _ => true
  }

  ghost predicate CalmRun(ws: seq<World>, es: seq<Event>, h: Hash) {
    && Run(ws, es)
    && (forall t :: t in ws[0].threads ==> ws[0].threads[t].token.hash == ws[0].threads[t].hash != h)
    && forall i :: 0 <= i < |es| ==> Calm(ws[i], es[i], h)
  }

  predicate InstallsHash(w: World, e: Event, h: Hash) {
    Installed(w, e).Some? && Installed(w, e).value.hash == h
  }

  // ---------------------------------------------------------------- what one event does to h

  lemma ValidEntry(o: Owner, h: Hash)
    requires Valid(o)
    ensures h in o.resident ==> EntryValid(o, o.resident[h])
  {
  }

  /** Fewer threads, and an entry that still serves them. */
  lemma OnTrackKept(w: World, w': World, h: Hash)
    requires OnTrack(w, h)
    requires forall t :: t in w'.threads ==> t in w.threads && w'.threads[t] == w.threads[t]
    requires h in w.owner.resident ==>
               && h in w'.owner.resident
               && var e, e' := w.owner.resident[h], w'.owner.resident[h];
               || (e'.materialized && Compatible(e'.residentGen, w'.owner.currentGeneration))
               || (!e.materialized && !e'.materialized && e'.pending == e.pending && e'.tokenSeq == e.tokenSeq)
    ensures OnTrack(w', h)
  {
  }

  /** The entry of h once a completion on it is through. */
  lemma CompletedEntry(w: World, t: ThreadId, m: Materialized, h: Hash)
    requires h in w.owner.resident ==> EntryValid(w.owner, w.owner.resident[h])
    requires OnTrack(w, h) && Calm(w, Complete(t, m), h)
    requires t in w.threads && w.threads[t].hash == h
    ensures var w' := CompleteStep(w, t, m).0;
            && Resident(w', h) && Compatible(w'.owner.resident[h].residentGen, w'.owner.currentGeneration)
            && (InstallsHash(w, Complete(t, m), h) <==> !Resident(w, h))
            && (Resident(w, h) ==> EntryOf(w'.owner, h).index == EntryOf(w.owner, h).index)
  {
  }

  lemma CompletedPin(w: World, t: ThreadId, m: Materialized, h: Hash)
    requires OnTrack(w, h) && Calm(w, Complete(t, m), h)
    requires t in w.threads && w.threads[t].hash == h && w.threads[t].purpose.PinInto?
    requires h in w.owner.resident ==> EntryValid(w.owner, w.owner.resident[h])
    ensures var (w', st) := CompleteStep(w, t, m);
            st == OK && w'.handles == w.handles[w.threads[t].purpose.slot := h]
  {
  }

  lemma BeginOnTrack(w: World, t: ThreadId, g: Hash, p: Purpose, h: Hash)
    requires Valid(w.owner) && OnTrack(w, h)
    ensures var w' := BeginStep(w, t, g, p).0;
            && OnTrack(w', h)
            && Resident(w', h) == Resident(w, h)
            && EntryOf(w'.owner, h).index == EntryOf(w.owner, h).index
  {
    hide Valid, OnTrack;
    ValidEntry(w.owner, h);
    if t !in w.threads {
      if g == h { BeginOnHash(w, t, p, h); } else { BeginElsewhere(w, t, g, p, h); }
    }
  }

  lemma BeginOnHash(w: World, t: ThreadId, p: Purpose, h: Hash)
    requires OnTrack(w, h) && t !in w.threads && (h in w.owner.resident ==> EntryValid(w.owner, w.owner.resident[h]))
    ensures OnTrack(BeginStep(w, t, h, p).0, h)
  {
    var w' := BeginStep(w, t, h, p).0;
    assert forall s :: s in w'.threads && s != t ==> w'.threads[s] == w.threads[s];
  }

  lemma BeginElsewhere(w: World, t: ThreadId, g: Hash, p: Purpose, h: Hash)
    requires OnTrack(w, h) && t !in w.threads && g != h
    ensures OnTrack(BeginStep(w, t, g, p).0, h)
  {
    var w' := BeginStep(w, t, g, p).0;
    assert forall s :: s in w'.threads && s != t ==> w'.threads[s] == w.threads[s];
  }

  /** A completion on h succeeds; its object is the one installed before, or the one it installs. */
  lemma CompleteOnHash(w: World, t: ThreadId, m: Materialized, h: Hash)
    requires Valid(w.owner) && OnTrack(w, h) && Calm(w, Complete(t, m), h)
    requires t in w.threads && w.threads[t].hash == h
    ensures var (w', st) := CompleteStep(w, t, m);
            && OnTrack(w', h) && Resident(w', h)
            && (InstallsHash(w, Complete(t, m), h) <==> !Resident(w, h))
            && (Resident(w, h) ==> EntryOf(w'.owner, h).index == EntryOf(w.owner, h).index)
            && (w.threads[t].purpose.PinInto? ==>
                  && st == OK
                  && w'.handles == w.handles[w.threads[t].purpose.slot := h])
  {
    hide Valid, OnTrack, InstallsHash, Calm;
    ValidEntry(w.owner, h);
    CompletedEntry(w, t, m, h);
    if w.threads[t].purpose.PinInto? { CompletedPin(w, t, m, h); }
    OnTrackKept(w, CompleteStep(w, t, m).0, h);
  }

  lemma CompleteElsewhere(w: World, t: ThreadId, m: Materialized, h: Hash)
    requires Valid(w.owner) && OnTrack(w, h)
    requires t in w.threads && w.threads[t].hash != h
    ensures var w' := CompleteStep(w, t, m).0;
            && OnTrack(w', h)
            && EntryOf(w'.owner, h) == EntryOf(w.owner, h)
            && Resident(w', h) == Resident(w, h)
            && !InstallsHash(w, Complete(t, m), h)
  {
    hide Valid;
    var w' := CompleteStep(w, t, m).0;
    assert w.threads[t].token.hash != h;
    assert h in w'.owner.resident <==> h in w.owner.resident;
    assert h in w.owner.resident ==> w'.owner.resident[h] == w.owner.resident[h];
    assert forall s :: s in w'.threads ==> s in w.threads && w'.threads[s] == w.threads[s];
  }

  /** How far an entry may move while its requests stay on track. */
  ghost predicate KeptUp(a: Entry, b: Entry) {
    && b.materialized == a.materialized && b.index == a.index && b.residentGen == a.residentGen
    && (a.pending ==> b.pending && b.tokenSeq == a.tokenSeq)
  }

  lemma ApplyCalm(o: Owner, op: OwnerOp, h: Hash)
    requires Valid(o) && CalmOp(o, op, h)
    requires !(op.RawPublish? && op.token.hash == h)
    ensures Apply(o, op).currentGeneration == o.currentGeneration
    ensures h in o.resident ==> h in Apply(o, op).resident
    ensures KeptUp(EntryOf(o, h), EntryOf(Apply(o, op), h))
  {
    if h in o.resident { assert EntryValid(o, o.resident[h]); }
  }

  /** An event of no thread, seen from h: residency and object as before, unless it installs h. */
  lemma OtherOnTrack(w: World, e: Event, h: Hash)
    requires Valid(w.owner) && OnTrack(w, h) && Calm(w, e, h) && !e.Begin? && !e.Complete?
    ensures var w' := Step(w, e);
            && OnTrack(w', h)
            && (Resident(w, h) ==> Resident(w', h) && EntryOf(w'.owner, h).index == EntryOf(w.owner, h).index)
            && (Resident(w', h) && !Resident(w, h) <==> InstallsHash(w, e, h))
  {
    var w' := Step(w, e);
    assert w'.threads == w.threads;
    if h in w.owner.resident { assert EntryValid(w.owner, w.owner.resident[h]); }
    if e.Call? && !(e.op.RawPublish? && e.op.token.hash == h) { ApplyCalm(w.owner, e.op, h); }
  }

  lemma CalmStep(w: World, e: Event, h: Hash)
    requires Valid(w.owner) && OnTrack(w, h) && Calm(w, e, h)
    ensures OnTrack(Step(w, e), h)
    ensures Resident(w, h) ==> Resident(Step(w, e), h)
    ensures Resident(w, h) ==> EntryOf(Step(w, e).owner, h).index == EntryOf(w.owner, h).index
    ensures InstallsHash(w, e, h) <==> Resident(Step(w, e), h) && !Resident(w, h)
  {
    match e
    case Begin(t, g, p) => BeginOnTrack(w, t, g, p, h);
    case Complete(t, m) =>
      if t in w.threads {
        if w.threads[t].hash == h { CompleteOnHash(w, t, m, h); } else { CompleteElsewhere(w, t, m, h); }
      }
    case _ => OtherOnTrack(w, e, h);
  }

  // ---------------------------------------------------------------- whole runs

  lemma {:induction false} EveryStateOnTrack(ws: seq<World>, es: seq<Event>, h: Hash, n: nat)
    requires CalmRun(ws, es, h) && n <= |es|
    ensures OnTrack(ws[n], h) && Valid(ws[n].owner)
    decreases n
  {
    EveryStateValid(ws, es, n);
    if n > 0 {
      EveryStateOnTrack(ws, es, h, n - 1);
      assert Next(ws[n - 1], es[n - 1], ws[n]) && Calm(ws[n - 1], es[n - 1], h);
      CalmStep(ws[n - 1], es[n - 1], h);
    }
  }

  function InstallCount(ws: seq<World>, es: seq<Event>, h: Hash, n: nat): nat
    requires n <= |es| <= |ws|
  {
    if n == 0 then 0
    else InstallCount(ws, es, h, n - 1) + if InstallsHash(ws[n - 1], es[n - 1], h) then 1 else 0
  }

  lemma {:induction false} InstalledOnce(ws: seq<World>, es: seq<Event>, h: Hash, n: nat)
    requires CalmRun(ws, es, h) && n <= |es|
    ensures InstallCount(ws, es, h, n) == if Resident(ws[n], h) && !Resident(ws[0], h) then 1 else 0
    ensures Resident(ws[0], h) ==> Resident(ws[n], h)
    decreases n
  {
    if n > 0 {
      InstalledOnce(ws, es, h, n - 1);
      EveryStateOnTrack(ws, es, h, n - 1);
      assert Next(ws[n - 1], es[n - 1], ws[n]) && Calm(ws[n - 1], es[n - 1], h);
      CalmStep(ws[n - 1], es[n - 1], h);
    }
  }

  lemma {:induction false} ResidentObjectStays(ws: seq<World>, es: seq<Event>, h: Hash, i: nat, j: nat)
    requires CalmRun(ws, es, h) && i <= j <= |es| && Resident(ws[i], h)
    ensures Resident(ws[j], h)
    ensures EntryOf(ws[j].owner, h).index == EntryOf(ws[i].owner, h).index
    decreases j - i
  {
    if i < j {
      EveryStateOnTrack(ws, es, h, i);
      assert Next(ws[i], es[i], ws[i + 1]) && Calm(ws[i], es[i], h);
      CalmStep(ws[i], es[i], h);
      ResidentObjectStays(ws, es, h, i + 1, j);
    }
  }

  /** The result a pin gets from the locked region that decides it. */
  function PinResult(w: World, e: Event): Status
    requires e.Begin? || e.Complete?
  {
    if e.Begin? then BeginStep(w, e.thread, e.hash, e.purpose).1 else CompleteStep(w, e.thread, e.result).1
  }

  /** The event decides a pin of h into the given slot: at once if h is resident, else on completion. */
  predicate DecidesPin(w: World, e: Event, h: Hash, slot: Slot) {
    || (e.Begin? && e.thread !in w.threads && e.hash == h && e.purpose == PinInto(slot) && Resident(w, h))
    || (e.Complete? && e.thread in w.threads && w.threads[e.thread].hash == h
        && w.threads[e.thread].purpose == PinInto(slot))
  }

  lemma DecidedPin(w: World, e: Event, h: Hash, slot: Slot)
    requires Valid(w.owner) && OnTrack(w, h) && Calm(w, e, h) && DecidesPin(w, e, h, slot)
    ensures PinResult(w, e) == OK
    ensures Step(w, e).handles == w.handles[slot := h]
    ensures Resident(Step(w, e), h)
  {
    if e.Complete? { CompleteOnHash(w, e.thread, e.result, h); } else { BeginOnTrack(w, e.thread, h, e.purpose, h); }
  }

  /**
   Any number of concurrent pins of h: each returns OK and claims h, all see the object
   resident at the end of the run, and exactly one completion of the run installed it.
   */
  lemma ConcurrentPinsConverge(ws: seq<World>, es: seq<Event>, h: Hash, i: nat, slot: Slot)
    requires CalmRun(ws, es, h) && i < |es| && DecidesPin(ws[i], es[i], h, slot)
    requires !Resident(ws[0], h)
    ensures PinResult(ws[i], es[i]) == OK
    ensures ws[i + 1].handles == ws[i].handles[slot := h]
    ensures EntryOf(ws[i + 1].owner, h).index.Some?
    ensures EntryOf(ws[i + 1].owner, h).index == EntryOf(ws[|es|].owner, h).index
    ensures InstallCount(ws, es, h, |es|) == 1
  {
    EveryStateOnTrack(ws, es, h, i);
    EveryStateValid(ws, es, i + 1);
    assert Next(ws[i], es[i], ws[i + 1]) && Calm(ws[i], es[i], h);
    DecidedPin(ws[i], es[i], h, slot);
    assert EntryValid(ws[i + 1].owner, ws[i + 1].owner.resident[h]);
    ResidentObjectStays(ws, es, h, i + 1, |es|);
    InstalledOnce(ws, es, h, |es|);
  }
}
