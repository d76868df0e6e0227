/**
 The resident cache of block-index objects as a value: its entries, its height
 index, its request counter and the objects it has on the heap.  Each function
 below is one locked region of the owner.
 */
module HotOwnerModel {
  import opened Options
  import opened Iteration

  type Hash = nat

  /** Identity of a heap object; identities are never reused. */
  type Obj = nat

  datatype Status =
    | OK
    | NotResident
    | MaterializationPending
    | MaterializationUnavailable
    | GenerationMismatch
    | CorruptMetadata
    | EvictionBlocked
    | PinRequired

  datatype Entry = Entry(
    index: Option<Obj>,
    pins: nat,
    residentGen: nat,
    materialized: bool,
    anchor: bool,
    pending: bool,
    tokenSeq: nat)

  const FRESH_ENTRY := Entry(None, 0, 0, false, false, false, 0)

  datatype Token = Token(hash: Hash, generation: nat, tokenSeq: nat)

  /** What the unlocked phase brought back; of the snapshot only the height matters here. */
  datatype Materialized = Materialized(found: bool, generation: nat, height: int)

  type HeightIndex = map<int, set<Hash>>

  datatype Owner = Owner(
    resident: map<Hash, Entry>,
    byHeight: HeightIndex,
    currentGeneration: nat,
    nextTokenSeq: nat,
    heap: map<Obj, int>,     // live objects, each with its immutable height
    nextObj: nat)

  const EMPTY_OWNER := Owner(map[], map[], 0, 1, map[], 0)

  // ---------------------------------------------------------------- helpers

  function EntryOf(o: Owner, h: Hash): Entry {
    if h in o.resident then o.resident[h] else FRESH_ENTRY
  }

  function Put(o: Owner, h: Hash, e: Entry): Owner {
    o.(resident := o.resident[h := e])
  }

  predicate Compatible(a: nat, b: nat) {
    a == 0 || b == 0 || a == b
  }

  function IndexAt(b: HeightIndex, height: int, h: Hash): HeightIndex {
    b[height := (if height in b then b[height] else {}) + {h}]
  }

  function UnindexAt(b: HeightIndex, height: int, h: Hash): HeightIndex {
    if height !in b then b
    else if b[height] - {h} == {} then b - {height}
    else b[height := b[height] - {h}]
  }

  // ---------------------------------------------------------------- locked regions

  /** RequestMaterializationLocked: IDLE -> PENDING, minting a sequence number. */
  function Request(o: Owner, h: Hash): (r: (Owner, Status, Token)) {
    var e := EntryOf(o, h);
    var mint := !e.pending && !e.materialized;
    var e' := if mint then e.(pending := true, tokenSeq := o.nextTokenSeq) else e;
    var o' := Put(o, h, e').(nextTokenSeq := if mint then o.nextTokenSeq + 1 else o.nextTokenSeq);
    (o', if e'.materialized then OK else MaterializationPending, Token(h, o.currentGeneration, e'.tokenSeq))
  }

  /** The guard under which a completion installs its object. */
  predicate Publishable(o: Owner, t: Token, m: Materialized) {
    && t.tokenSeq != 0 && m.found
    && t.hash in o.resident
    && o.resident[t.hash].pending
    && o.resident[t.hash].tokenSeq == t.tokenSeq
    && Compatible(m.generation, o.currentGeneration)
  }

  /** PublishMaterializedLocked: validate the token, then install one new object. */
  function Publish(o: Owner, t: Token, m: Materialized): (r: (Owner, Status)) {
    if t.tokenSeq == 0 || !m.found then (o, MaterializationUnavailable)
    else if !Publishable(o, t, m) then (o, GenerationMismatch)
    else
      var e := o.resident[t.hash].(index := Some(o.nextObj), residentGen := m.generation,
                                   materialized := true, pending := false, tokenSeq := 0);
      (Put(o, t.hash, e).(heap := o.heap[o.nextObj := m.height], nextObj := o.nextObj + 1,
                          byHeight := IndexAt(o.byHeight, m.height, t.hash)), OK)
  }

  /** The clean-up after a failed materialization. */
  function ClearPending(o: Owner, t: Token): Owner {
    if t.hash in o.resident && o.resident[t.hash].pending && o.resident[t.hash].tokenSeq == t.tokenSeq
    then Put(o, t.hash, o.resident[t.hash].(pending := false, tokenSeq := 0))
    else o
  }

  function AddPin(o: Owner, h: Hash): Owner
    requires h in o.resident
  {
    Put(o, h, o.resident[h].(pins := o.resident[h].pins + 1))
  }

  function ReleasePin(o: Owner, h: Hash): Owner {
    if h in o.resident && o.resident[h].pins > 0
    then Put(o, h, o.resident[h].(pins := o.resident[h].pins - 1))
    else o
  }

  function PinPermanent(o: Owner, h: Hash): Owner {
    Put(o, h, EntryOf(o, h).(anchor := true))
  }

  /** Free the object of entry h and drop the entry. */
  function Drop(o: Owner, h: Hash): Owner
    requires h in o.resident
  {
    var i := o.resident[h].index;
    var o' := o.(resident := o.resident - {h});
    if i.None? then o'
    else o'.(heap := o.heap - {i.value},
             byHeight := if i.value in o.heap then UnindexAt(o.byHeight, o.heap[i.value], h) else o.byHeight)
  }

  function Evict(o: Owner, h: Hash): (r: (Owner, Status)) {
    if h !in o.resident then (o, NotResident)
    else if o.resident[h].pins > 0 || o.resident[h].anchor then (o, EvictionBlocked)
    else if !o.resident[h].materialized then (o, NotResident)
    else (Drop(o, h), OK)
  }

  function ReleaseOwned(o: Owner, h: Hash): (r: (Owner, bool)) {
    if h in o.resident then (Drop(o, h), true) else (o, false)
  }

  /** AdoptOwned of a caller-built object; an owned distinct object is kept. */
  function Adopt(o: Owner, h: Hash, obj: Option<Obj>, anchor: bool): (r: (Owner, Status)) {
    if obj.None? then (o, CorruptMetadata)
    else if h in o.resident && o.resident[h].index.Some? && o.resident[h].index != obj then (o, OK)
    else
      var e := EntryOf(o, h).(index := obj, materialized := true, pending := false, anchor := anchor);
      var o' := Put(o, h, e);
      (if obj.value in o.heap then o'.(byHeight := IndexAt(o.byHeight, o.heap[obj.value], h)) else o', OK)
  }

  // ---------------------------------------------------------------- eviction by height

  /** EvictEligible's rule together with a height below the floor. */
  predicate Victim(o: Owner, floor: int, h: Hash) {
    && h in o.resident
    && var e := o.resident[h];
    && e.materialized && e.pins == 0 && !e.anchor
    && e.index.Some? && e.index.value in o.heap && o.heap[e.index.value] < floor
  }

  function Victims(o: Owner, floor: int): set<Hash> {
    set h | h in o.resident && Victim(o, floor, h)
  }

  /** Free the objects of a set of entries and drop the entries, in closed form. */
  function DropSet(o: Owner, hs: set<Hash>): Owner {
    o.(resident := o.resident - hs,
       heap := o.heap - set h | h in hs && h in o.resident && o.resident[h].index.Some? :: o.resident[h].index.value,
       byHeight := map x | x in o.byHeight && o.byHeight[x] - hs != {} :: o.byHeight[x] - hs)
  }

  /** Everything EvictBelowHeight(floor) does: its victims are gone, all else is as before. */
  function EvictBelowFloor(o: Owner, floor: int): Owner {
    DropSet(o, Victims(o, floor))
  }

  /** EvictResident on each hash in turn, counting the successes. */
  function EvictAll(o: Owner, hs: seq<Hash>): (r: (Owner, nat))
    decreases |hs|
  {
    if hs == [] then (o, 0)
    else
      var (o1, st) := Evict(o, hs[0]);
      var (o2, n) := EvictAll(o1, hs[1..]);
      (o2, n + if st == OK then 1 else 0)
  }

  // ---------------------------------------------------------------- invariant

  ghost predicate Owns(o: Owner, h: Hash, x: Obj) {
    h in o.resident && o.resident[h].index == Some(x)
  }

  ghost predicate EntryValid(o: Owner, e: Entry) {
    && e.materialized == e.index.Some?
    && (e.index.Some? ==> e.index.value in o.heap)
    && (e.pending ==> !e.materialized && 0 < e.tokenSeq < o.nextTokenSeq)
    && (e.pins > 0 ==> e.materialized)
  }

  ghost predicate AtHeight(o: Owner, h: Hash, height: int) {
    && h in o.resident && o.resident[h].materialized && o.resident[h].index.Some?
    && o.resident[h].index.value in o.heap
    && o.heap[o.resident[h].index.value] == height
  }

  ghost predicate Indexed(b: HeightIndex, h: Hash, height: int) {
    height in b && h in b[height]
  }

  /** The height index holds exactly the materialized residents, and no empty set. */
  ghost predicate HeightIndexExact(o: Owner) {
    && (forall h, x :: Indexed(o.byHeight, h, x) <==> AtHeight(o, h, x))
    && (forall x :: x in o.byHeight ==> o.byHeight[x] != {})
  }

  ghost predicate DistinctPending(o: Owner) {
    forall g, h | g in o.resident && h in o.resident && o.resident[g].pending && o.resident[h].pending ::
      o.resident[g].tokenSeq == o.resident[h].tokenSeq ==> g == h
  }

  ghost predicate DistinctObjects(o: Owner) {
    forall g, h, x :: Owns(o, g, x) && Owns(o, h, x) ==> g == h
  }

  ghost predicate Valid(o: Owner) {
    && 0 < o.nextTokenSeq
    && (forall h :: h in o.resident ==> EntryValid(o, o.resident[h]))
    && (forall x :: x in o.heap ==> x < o.nextObj)
    && DistinctPending(o)
    && DistinctObjects(o)
    && HeightIndexExact(o)
  }

  /** A pointer is null or leads to a live object. */
  predicate Live(o: Owner, obj: Option<Obj>) {
    obj.Some? ==> obj.value in o.heap
  }

  /** What a caller of AdoptOwned owes: a live object no other hash owns. */
  ghost predicate Adoptable(o: Owner, h: Hash, obj: Option<Obj>) {
    Live(o, obj) && (obj.Some? ==> forall g :: Owns(o, g, obj.value) ==> g == h)
  }

  /** The adoption is declined, because the hash has an object already. */
  predicate Declined(o: Owner, h: Hash, obj: Option<Obj>) {
    h in o.resident && o.resident[h].index.Some? && o.resident[h].index != obj
  }

  // ---------------------------------------------------------------- preservation

  lemma RequestValid(o: Owner, h: Hash)
    requires Valid(o)
    ensures Valid(Request(o, h).0)
  {
    var o' := Request(o, h).0;
    forall g, x ensures AtHeight(o', g, x) <==> AtHeight(o, g, x) {}
    forall g, x ensures Owns(o', g, x) <==> Owns(o, g, x) {}
  }

  lemma PublishValid(o: Owner, t: Token, m: Materialized)
    requires Valid(o)
    ensures Valid(Publish(o, t, m).0)
  {
    if Publishable(o, t, m) {
      var o' := Publish(o, t, m).0;
      assert EntryValid(o, o.resident[t.hash]);
      forall g, x ensures Owns(o', g, x) <==> (if g == t.hash then x == o.nextObj else Owns(o, g, x)) {}
      forall g, x ensures AtHeight(o', g, x) <==> (if g == t.hash then x == m.height else AtHeight(o, g, x)) {
        if g in o.resident { assert EntryValid(o, o.resident[g]); }
      }
      assert forall x :: !AtHeight(o, t.hash, x);
      assert forall g, x :: Indexed(o'.byHeight, g, x) <==> Indexed(o.byHeight, g, x) || (g == t.hash && x == m.height);
      assert forall g, x :: Indexed(o.byHeight, g, x) <==> AtHeight(o, g, x);
    }
  }

  /** Pins, anchors and pending marks leave objects and heights alone. */
  lemma SameObjectsValid(o: Owner, h: Hash, e: Entry)
    requires Valid(o) && EntryValid(o, e)
    requires e.index == EntryOf(o, h).index
    requires e.pending ==> EntryOf(o, h).pending && e.tokenSeq == EntryOf(o, h).tokenSeq
    ensures Valid(Put(o, h, e))
  {
    var o' := Put(o, h, e);
    forall g, x ensures AtHeight(o', g, x) <==> AtHeight(o, g, x) {}
    forall g, x ensures Owns(o', g, x) <==> Owns(o, g, x) {}
  }

  lemma DropValid(o: Owner, h: Hash)
    requires Valid(o) && h in o.resident
    ensures Valid(Drop(o, h))
  {
    var o' := Drop(o, h);
    assert EntryValid(o, o.resident[h]);
    forall g, x ensures Owns(o', g, x) <==> g != h && Owns(o, g, x) {}
    forall g | g in o'.resident ensures EntryValid(o', o'.resident[g]) {
      assert EntryValid(o, o.resident[g]);
      if o.resident[h].index.Some? && o.resident[g].index == o.resident[h].index {
        assert Owns(o, g, o.resident[h].index.value) && Owns(o, h, o.resident[h].index.value);
      }
    }
    forall g, x ensures AtHeight(o', g, x) <==> g != h && AtHeight(o, g, x) {
      if g in o'.resident { assert EntryValid(o', o'.resident[g]); }
    }
    assert forall g, x :: Indexed(o.byHeight, g, x) <==> AtHeight(o, g, x);
    forall g, x ensures Indexed(o'.byHeight, g, x) <==> Indexed(o.byHeight, g, x) && g != h {
      assert Indexed(o.byHeight, h, x) <==> AtHeight(o, h, x);
    }
  }

  lemma AdoptValid(o: Owner, h: Hash, obj: Option<Obj>, anchor: bool)
    requires Valid(o) && Adoptable(o, h, obj)
    ensures Valid(Adopt(o, h, obj, anchor).0)
  {
    var o' := Adopt(o, h, obj, anchor).0;
    if o' != o {
      var x0 := obj.value;
      assert h in o.resident ==> EntryValid(o, o.resident[h]);
      forall g, x ensures Owns(o', g, x) <==> (if g == h then x == x0 else Owns(o, g, x)) {}
      forall g, x ensures AtHeight(o', g, x) <==> (if g == h then x == o.heap[x0] else AtHeight(o, g, x)) {}
      assert forall g, x :: Indexed(o'.byHeight, g, x) <==> Indexed(o.byHeight, g, x) || (g == h && x == o.heap[x0]);
      assert forall g, x :: Indexed(o.byHeight, g, x) <==> AtHeight(o, g, x);
    }
  }

  /** Adopting a live object keeps the invariant exactly if it is declined or no other hash owns the object. */
  lemma AdoptValidIff(o: Owner, h: Hash, obj: Option<Obj>, anchor: bool)
    requires Valid(o) && Live(o, obj)
    ensures Valid(Adopt(o, h, obj, anchor).0) <==> Declined(o, h, obj) || Adoptable(o, h, obj)
  {
    if Adoptable(o, h, obj) {
      AdoptValid(o, h, obj, anchor);
    } else if !Declined(o, h, obj) {
      var g :| Owns(o, g, obj.value) && g != h;
      var o' := Adopt(o, h, obj, anchor).0;
      assert Owns(o', g, obj.value) && Owns(o', h, obj.value);
    }
  }

  // ---------------------------------------------------------------- eviction by height is eviction one by one

  lemma DropSetValid(o: Owner, hs: set<Hash>)
    requires Valid(o)
    ensures Valid(DropSet(o, hs))
  {
    var o' := DropSet(o, hs);
    forall g, x ensures Owns(o', g, x) <==> g !in hs && Owns(o, g, x) {}
    forall g | g in o'.resident ensures EntryValid(o', o'.resident[g]) {
      assert EntryValid(o, o.resident[g]);
      forall h | h in hs && h in o.resident && o.resident[h].index.Some?
        ensures o.resident[h].index != o.resident[g].index
      {
        if o.resident[h].index == o.resident[g].index {
          assert Owns(o, g, o.resident[h].index.value) && Owns(o, h, o.resident[h].index.value);
        }
      }
    }
    forall g, x ensures AtHeight(o', g, x) <==> g !in hs && AtHeight(o, g, x) {
      if g in o'.resident { assert EntryValid(o', o'.resident[g]); }
    }
    assert forall g, x :: Indexed(o.byHeight, g, x) <==> AtHeight(o, g, x);
    forall g, x ensures Indexed(o'.byHeight, g, x) <==> Indexed(o.byHeight, g, x) && g !in hs {
      if Indexed(o.byHeight, g, x) && g !in hs { assert g in o.byHeight[x] - hs; }
    }
  }

  ghost predicate Evictable(o: Owner, h: Hash) {
    h in o.resident && o.resident[h].materialized && o.resident[h].pins == 0 && !o.resident[h].anchor
  }

  lemma EvictThenDropSet(o: Owner, h: Hash, hs: set<Hash>)
    requires Valid(o) && Evictable(o, h) && h !in hs
    requires forall g :: g in hs ==> g in o.resident
    ensures Evict(o, h).1 == OK
    ensures DropSet(Evict(o, h).0, hs) == DropSet(o, hs + {h})
  {
    var o1 := Evict(o, h).0;
    assert EntryValid(o, o.resident[h]);
    var i := o.resident[h].index.value;
    assert AtHeight(o, h, o.heap[i]) && Indexed(o.byHeight, h, o.heap[i]);
    assert forall x :: x in o.byHeight && h in o.byHeight[x] ==> Indexed(o.byHeight, h, x);
    forall x | x in o.byHeight && x != o.heap[i] ensures h !in o.byHeight[x] {
      assert !AtHeight(o, h, x);
    }
    var l, r := DropSet(o1, hs), DropSet(o, hs + {h});
    assert l.resident == r.resident;
    assert l.heap == r.heap;
    forall x ensures x in l.byHeight <==> x in r.byHeight
    {
      if x in o.byHeight && x in o1.byHeight { assert o1.byHeight[x] - hs == o.byHeight[x] - (hs + {h}); }
      if x in o.byHeight && x !in o1.byHeight { assert o.byHeight[x] - (hs + {h}) == {}; }
    }
    forall x | x in l.byHeight ensures l.byHeight[x] == r.byHeight[x] {
      assert o1.byHeight[x] - hs == o.byHeight[x] - (hs + {h});
    }
    assert l.byHeight == r.byHeight;
  }

  lemma DropNothing(o: Owner)
    requires forall x :: x in o.byHeight ==> o.byHeight[x] != {}
    ensures DropSet(o, {}) == o
  {
    var none: set<Hash> := {};
    var b := DropSet(o, none).byHeight;
    forall x | x in o.byHeight ensures x in b && b[x] == o.byHeight[x] {
      assert o.byHeight[x] - none == o.byHeight[x];
    }
    assert b == o.byHeight;
  }

  lemma EvictKeepsRest(o: Owner, h: Hash)
    requires Valid(o) && Evictable(o, h)
    ensures Valid(Evict(o, h).0)
    ensures forall g :: g != h && Evictable(o, g) ==> Evictable(Evict(o, h).0, g)
  {
    DropValid(o, h);
  }

  ghost predicate AllEvictable(o: Owner, hs: seq<Hash>) {
    && Distinct(hs)
    && (forall i :: 0 <= i < |hs| ==> Evictable(o, hs[i]))
  }

  lemma RestEvictable(o: Owner, hs: seq<Hash>)
    requires Valid(o) && AllEvictable(o, hs) && hs != []
    ensures Valid(Evict(o, hs[0]).0) && AllEvictable(Evict(o, hs[0]).0, hs[1..])
    ensures hs[0] !in Elements(hs[1..]) && forall g :: g in Elements(hs) ==> Evictable(o, g)
  {
    hide Valid, Evictable, Evict;
    EvictKeepsRest(o, hs[0]);
  }

  /** Evicting any duplicate-free list of eligible hashes one by one, in any order, drops exactly that set. */
  lemma {:induction false} EvictAllDropsSet(o: Owner, hs: seq<Hash>)
    requires Valid(o) && AllEvictable(o, hs)
    ensures EvictAll(o, hs) == (DropSet(o, Elements(hs)), |hs|)
    decreases |hs|
  {
    if hs == [] {
      assert Elements(hs) == {};
      DropNothing(o);
    } else {
      var h, rest := hs[0], hs[1..];
      EvictThenDropSet(o, h, Elements(rest));
      RestEvictable(o, hs);
      EvictAllDropsSet(Evict(o, h).0, rest);
      assert Elements(rest) + {h} == Elements(hs);
    }
  }

  /** One pass below a floor does what filtering the eligible heights and evicting each would do. */
  lemma EvictBelowFloorIsEvictAll(o: Owner, floor: int, hs: seq<Hash>)
    requires Valid(o) && Distinct(hs)
    requires forall h :: h in hs <==> h in Victims(o, floor)
    ensures EvictAll(o, hs) == (EvictBelowFloor(o, floor), |Victims(o, floor)|)
  {
    forall i | 0 <= i < |hs| ensures Evictable(o, hs[i]) { assert hs[i] in Victims(o, floor); }
    EvictAllDropsSet(o, hs);
    assert Elements(hs) == Victims(o, floor);
    DistinctCard(hs);
  }
}
