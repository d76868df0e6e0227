/** Token safety: over every interleaving a sequence number installs at most once, and a stale one never. */
module HotOwnerTokens {
  import opened Options
  import opened HotOwnerModel
  import opened HotOwnerRuns

  /** The request q on hash h is still the pending one. */
  ghost predicate Outstanding(o: Owner, h: Hash, q: nat) {
    h in o.resident && o.resident[h].pending && o.resident[h].tokenSeq == q
  }

  /** The token whose object the event installs, if it installs one. */
  function Installed(w: World, e: Event): Option<Token> {
    match e
    case Complete(t, m) =>
      if t in w.threads && Publishable(w.owner, w.threads[t].token, m) then Some(w.threads[t].token) else None
    case Call(RawPublish(token, m)) => if Publishable(w.owner, token, m) then Some(token) else None
    case _ => None
  }

  /** A completing thread acts on the requests through its publication or clean-up alone. */
  lemma CompleteOutstanding(w: World, t: ThreadId, m: Materialized, h: Hash, q: nat)
    requires t in w.threads
    ensures var o := if m.found then Publish(w.owner, w.threads[t].token, m).0
                     else ClearPending(w.owner, w.threads[t].token);
            var o' := CompleteStep(w, t, m).0.owner;
            && o'.nextTokenSeq == o.nextTokenSeq
            && (Outstanding(o', h, q) <==> Outstanding(o, h, q))
            && EntryOf(o', h).index == EntryOf(o, h).index
  {
  }

  lemma ApplySpent(o: Owner, op: OwnerOp, h: Hash, q: nat)
    requires q < o.nextTokenSeq
    ensures q < Apply(o, op).nextTokenSeq
    ensures !Outstanding(o, h, q) ==> !Outstanding(Apply(o, op), h, q)
  {
  }

  /** A sequence number already minted and no longer outstanding on h never becomes so again. */
  lemma SpentStaysSpent(w: World, e: Event, h: Hash, q: nat)
    requires q < w.owner.nextTokenSeq
    ensures q < Step(w, e).owner.nextTokenSeq
    ensures !Outstanding(w.owner, h, q) ==> !Outstanding(Step(w, e).owner, h, q)
  {
    hide Apply;
    if e.Complete? {
      if e.thread in w.threads { CompleteOutstanding(w, e.thread, e.result, h, q); }
    } else if e.Call? {
      ApplySpent(w.owner, e.op, h, q);
    }
  }

  lemma PublishSpends(o: Owner, token: Token, m: Materialized)
    requires Valid(o) && Publishable(o, token, m)
    ensures var o' := Publish(o, token, m).0;
            && 0 < token.tokenSeq < o.nextTokenSeq
            && (forall h :: !Outstanding(o', h, token.tokenSeq))
            && EntryOf(o', token.hash).index == Some(o.nextObj)
            && o.nextObj !in o.heap
  {
    assert EntryValid(o, o.resident[token.hash]);
    assert DistinctPending(o);
  }

  lemma InstallSpends(w: World, e: Event)
    requires Valid(w.owner) && Installed(w, e).Some?
    ensures var token := Installed(w, e).value;
            && 0 < token.tokenSeq < w.owner.nextTokenSeq
            && Outstanding(w.owner, token.hash, token.tokenSeq)
            && (forall h :: !Outstanding(Step(w, e).owner, h, token.tokenSeq))
            && EntryOf(Step(w, e).owner, token.hash).index == Some(w.owner.nextObj)
            && w.owner.nextObj !in w.owner.heap
  {
    var token := Installed(w, e).value;
    PublishSpends(w.owner, token, if e.Complete? then e.result else e.op.result);
    if e.Complete? {
      forall h { CompleteOutstanding(w, e.thread, e.result, h, token.tokenSeq); }
    }
  }

  lemma {:induction false} SpentForever(ws: seq<World>, es: seq<Event>, i: nat, j: nat, h: Hash, q: nat)
    requires Run(ws, es) && i <= j <= |es|
    requires q < ws[i].owner.nextTokenSeq && !Outstanding(ws[i].owner, h, q)
    ensures q < ws[j].owner.nextTokenSeq && !Outstanding(ws[j].owner, h, q)
    decreases j - i
  {
    if i < j {
      assert Next(ws[i], es[i], ws[i + 1]);
      SpentStaysSpent(ws[i], es[i], h, q);
      SpentForever(ws, es, i + 1, j, h, q);
    }
  }

  /** Each minted sequence number installs at most one object in a whole run. */
  lemma SeqInstallsOnce(ws: seq<World>, es: seq<Event>, i: nat, j: nat)
    requires Run(ws, es) && i < j < |es|
    requires Installed(ws[i], es[i]).Some? && Installed(ws[j], es[j]).Some?
    ensures Installed(ws[i], es[i]).value.tokenSeq != Installed(ws[j], es[j]).value.tokenSeq
  {
    EveryStateValid(ws, es, i);
    EveryStateValid(ws, es, j);
    InstallSpends(ws[i], es[i]);
    InstallSpends(ws[j], es[j]);
    assert Next(ws[i], es[i], ws[i + 1]);
    var q := Installed(ws[i], es[i]).value.tokenSeq;
    var h := Installed(ws[j], es[j]).value.hash;
    SpentStaysSpent(ws[i], es[i], h, q);
    SpentForever(ws, es, i + 1, j, h, q);
  }

  /** A completion whose request is no longer outstanding at some point changes nothing ever after. */
  lemma StaleInstallsNothing(ws: seq<World>, es: seq<Event>, i: nat, j: nat, token: Token, m: Materialized)
    requires Run(ws, es) && i <= j <= |es|
    requires token.tokenSeq < ws[i].owner.nextTokenSeq
    requires !Outstanding(ws[i].owner, token.hash, token.tokenSeq)
    ensures Publish(ws[j].owner, token, m).0 == ws[j].owner
    ensures Publish(ws[j].owner, token, m).1 != OK
  {
    SpentForever(ws, es, i, j, token.hash, token.tokenSeq);
  }

  ghost predicate OpRetires(o: Owner, op: OwnerOp, h: Hash, q: nat) {
    match op
    case ForceRelease(g) => g == h
    case AdoptObject(g, obj, _) => g == h && obj.Some?
    case RawPublish(token, m) => token.hash == h && token.tokenSeq == q && Publishable(o, token, m)
    case _ => false
  }

  /** The ways a request stops being outstanding: its entry freed, adopted, published, or given up. */
  ghost predicate Retires(w: World, e: Event, h: Hash, q: nat) {
    match e
    case Call(op) => OpRetires(w.owner, op, h, q)
    case Complete(t, m) =>
      && t in w.threads && w.threads[t].token.hash == h && w.threads[t].token.tokenSeq == q
      && (m.found ==> Publishable(w.owner, w.threads[t].token, m))
    case _ => false
  }

  lemma OpRetiredExactlyBy(o: Owner, op: OwnerOp, h: Hash, q: nat)
    requires Valid(o) && Outstanding(o, h, q)
    ensures !Outstanding(Apply(o, op), h, q) <==> OpRetires(o, op, h, q)
  {
    assert EntryValid(o, o.resident[h]);
  }

  /** An outstanding request ends exactly through one of those; in particular no eviction ends it. */
  lemma RetiredExactlyBy(w: World, e: Event, h: Hash, q: nat)
    requires Valid(w.owner) && Outstanding(w.owner, h, q)
    ensures !Outstanding(Step(w, e).owner, h, q) <==> Retires(w, e, h, q)
  {
    assert EntryValid(w.owner, w.owner.resident[h]);
    if e.Complete? {
      if e.thread in w.threads { CompleteOutstanding(w, e.thread, e.result, h, q); }
    } else if e.Call? {
      OpRetiredExactlyBy(w.owner, e.op, h, q);
    }
  }
}
