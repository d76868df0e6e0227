/**
 Records as the generation builders see them: rows in the order of height and hash, and
 the equation that any pass over the rows in this order solves, whether or not parents
 come before their children.
 */
module BuilderRows {
  import opened Options
  import opened Chain
  import opened ExternalSort
  import opened Iteration

  // ---------------------------------------------------------------- stores whose heights order the ancestry

  function Nth(recs: seq<Record>, id: Id): Record {
    if 1 <= id <= |recs| then recs[id - 1] else NULL_RECORD
  }

  /** RecordIds are positions, starting at 1. */
  function StoreOf(recs: seq<Record>): Store {
    map id: Id | 1 <= id <= |recs| :: Nth(recs, id)
  }

  ghost predicate Connected(s: Store, n: nat) {
    forall id :: 1 <= id <= n ==> IsRoot(s, id) || ParentId(s, n, id) != 0
  }

  function RowOf(s: Store, id: Id): Row {
    Row(Rec(s, id).hash, Rec(s, id).hashPrev, Rec(s, id).height, id)
  }

  /** The row of every parent sorts before the row of its child. */
  ghost predicate ParentsFirst(s: Store, n: nat) {
    forall id :: 1 <= id <= n && !IsRoot(s, id) ==> Less(RowOf(s, ParentId(s, n, id)), RowOf(s, id))
  }

  ghost predicate HeightsIncrease(s: Store, n: nat) {
    forall id :: 1 <= id <= n && !IsRoot(s, id) ==> Rec(s, ParentId(s, n, id)).height < Rec(s, id).height
  }

  ghost predicate Ordered(s: Store, n: nat) {
    UniqueHashes(s, n) && Connected(s, n) && ParentsFirst(s, n)
  }

  /** Increasing heights are enough, however hashes compare. */
  lemma IncreasingIsOrdered(s: Store, n: nat)
    requires UniqueHashes(s, n) && Connected(s, n) && HeightsIncrease(s, n)
    ensures Ordered(s, n)
  {
  }

  lemma ParentInRange(s: Store, n: nat, id: Id)
    ensures 0 <= ParentId(s, n, id) <= n
    ensures ParentId(s, n, id) != 0 ==> Rec(s, ParentId(s, n, id)).hash == Rec(s, id).hashPrev
  {
    var h := Rec(s, id).hashPrev;
    if ParentId(s, n, id) != 0 { assert Holds(s, n, h, ParentId(s, n, id)); }
  }

  /** The records whose rows sort before that of id. */
  ghost function Earlier(s: Store, n: nat, id: Id): set<Id> {
    set x: Id | 1 <= x <= n && Less(RowOf(s, x), RowOf(s, id))
  }

  /** The parent is on file and its row sorts before the child's. */
  ghost predicate ParentFirst(s: Store, n: nat, id: Id) {
    !IsRoot(s, id) && ParentId(s, n, id) != 0 && Less(RowOf(s, ParentId(s, n, id)), RowOf(s, id))
  }

  lemma OrderedParent(s: Store, n: nat, id: Id)
    requires Ordered(s, n) && 1 <= id <= n && !IsRoot(s, id)
    ensures ParentFirst(s, n, id)
  {
  }

  lemma EarlierShrinks(s: Store, n: nat, id: Id)
    requires ParentFirst(s, n, id)
    ensures 1 <= ParentId(s, n, id) <= n
    ensures |Earlier(s, n, ParentId(s, n, id))| < |Earlier(s, n, id)|
  {
    ParentInRange(s, n, id);
    var p := ParentId(s, n, id);
    assert p in Earlier(s, n, id) && p !in Earlier(s, n, p);
    assert Earlier(s, n, p) <= Earlier(s, n, id) - {p};
    SubsetCard(Earlier(s, n, p), Earlier(s, n, id) - {p});
  }

  /** The place in the order bounds the distance to a root. */
  lemma {:induction false} OrderedGrounded(s: Store, n: nat, id: Id, k: nat)
    requires Ordered(s, n) && 1 <= id <= n && |Earlier(s, n, id)| <= k
    ensures Grounded(s, n, id, k)
    decreases k
  {
    if !IsRoot(s, id) {
      OrderedParent(s, n, id);
      EarlierShrinks(s, n, id);
      OrderedGrounded(s, n, ParentId(s, n, id), k - 1);
    }
  }

  /** The entry of a record in an ordered store. */
  ghost function Expected(rules: Rules, s: Store, n: nat, id: Id): Derived
    requires Ordered(s, n) && 1 <= id <= n
  {
    OrderedGrounded(s, n, id, |Earlier(s, n, id)|);
    Value(rules, s, n, id, |Earlier(s, n, id)|)
  }

  lemma ExpectedStep(rules: Rules, s: Store, n: nat, id: Id)
    requires Ordered(s, n) && 1 <= id <= n
    ensures 1 <= ParentId(s, n, id) <= n || IsRoot(s, id)
    ensures Expected(rules, s, n, id)
         == Derive(rules, Rec(s, id),
                   if IsRoot(s, id) then DEFAULT_DERIVED else Expected(rules, s, n, ParentId(s, n, id)))
  {
    OrderedGrounded(s, n, id, |Earlier(s, n, id)|);
    if !IsRoot(s, id) {
      OrderedParent(s, n, id);
      EarlierShrinks(s, n, id);
      var p := ParentId(s, n, id);
      OrderedGrounded(s, n, p, |Earlier(s, n, p)|);
      ValueSteady(rules, s, n, p, |Earlier(s, n, p)|, |Earlier(s, n, id)| - 1);
    }
  }

  // ---------------------------------------------------------------- rows of a store

  ghost predicate ExactRows(s: Store, n: nat, rows: seq<Row>) {
    && (forall i :: 0 <= i < |rows| ==> 1 <= rows[i].recordId <= n && rows[i] == RowOf(s, rows[i].recordId))
    && (forall id :: 1 <= id <= n ==> RowOf(s, id) in rows)
  }

  lemma SameRows(s: Store, n: nat, rows: seq<Row>, sorted: seq<Row>)
    requires ExactRows(s, n, rows) && multiset(rows) == multiset(sorted)
    ensures ExactRows(s, n, sorted)
  {
    forall i | 0 <= i < |sorted|
      ensures 1 <= sorted[i].recordId <= n && sorted[i] == RowOf(s, sorted[i].recordId)
    {
      assert sorted[i] in multiset(sorted);
      assert sorted[i] in rows;
    }
    forall id | 1 <= id <= n ensures RowOf(s, id) in sorted {
      assert RowOf(s, id) in multiset(rows);
    }
  }

  method CollectRows(recs: seq<Record>) returns (rows: seq<Row>)
    ensures |rows| == |recs|
    ensures forall i :: 0 <= i < |recs| ==> rows[i] == RowOf(StoreOf(recs), i + 1)
    ensures ExactRows(StoreOf(recs), |recs|, rows) && Distinct(rows)
  {
    rows := [];
    var i := 0;
    while i < |recs|
      invariant 0 <= i <= |recs| && |rows| == i
      invariant forall k :: 0 <= k < i ==> rows[k] == RowOf(StoreOf(recs), k + 1)
    {
      rows := rows + [Row(recs[i].hash, recs[i].hashPrev, recs[i].height, i + 1)];
      i := i + 1;
    }
    forall id | 1 <= id <= |recs| ensures RowOf(StoreOf(recs), id) in rows {
      assert rows[id - 1] == RowOf(StoreOf(recs), id);
    }
  }

  lemma SameHashSameEntry(s: Store, n: nat, sorted: seq<Row>, i: nat, j: nat)
    requires UniqueHashes(s, n) && ExactRows(s, n, sorted) && i < |sorted| && j < |sorted|
    requires sorted[i].hash == sorted[j].hash
    ensures sorted[i] == sorted[j]
  {
    assert sorted[i] == RowOf(s, sorted[i].recordId) && sorted[j] == RowOf(s, sorted[j].recordId);
  }

  lemma RowsDiffer(s: Store, n: nat, sorted: seq<Row>, i: nat, j: nat)
    requires UniqueHashes(s, n) && ExactRows(s, n, sorted) && Distinct(sorted) && i < j < |sorted|
    ensures sorted[i].hash != sorted[j].hash
  {
    if sorted[i].hash == sorted[j].hash { SameHashSameEntry(s, n, sorted, i, j); }
  }

  /** Among the first i rows is the one of record y. */
  ghost predicate Passed(sorted: seq<Row>, i: nat, y: Id) {
    exists j :: 0 <= j < i && j < |sorted| && sorted[j].recordId == y
  }

  /** The rows passed before a row are exactly those that sort before it. */
  lemma PassedIffLess(s: Store, n: nat, sorted: seq<Row>, i: nat, y: Id)
    requires UniqueHashes(s, n) && ExactRows(s, n, sorted) && Sorted(sorted) && Distinct(sorted)
    requires i < |sorted| && 1 <= y <= n
    ensures Passed(sorted, i, y) <==> Less(RowOf(s, y), sorted[i])
  {
    if Passed(sorted, i, y) {
      var j :| 0 <= j < i && sorted[j].recordId == y;
      assert Leq(sorted[j], sorted[i]);
      RowsDiffer(s, n, sorted, j, i);
    }
    if Less(RowOf(s, y), sorted[i]) {
      assert RowOf(s, y) in sorted;
      var j :| 0 <= j < |sorted| && sorted[j] == RowOf(s, y);
      if i < j { assert Leq(sorted[i], sorted[j]); }
    }
  }

  lemma SortedDistinct(rows: seq<Row>, sorted: seq<Row>)
    requires Distinct(rows) && multiset(rows) == multiset(sorted)
    ensures Distinct(sorted)
  {
    forall i, j | 0 <= i < j < |sorted| ensures sorted[i] != sorted[j] {
      if sorted[i] == sorted[j] {
        TwiceIn(sorted, i, j);
        OnceIn(rows, sorted[i]);
      }
    }
  }

  lemma TwiceIn(v: seq<Row>, i: nat, j: nat)
    requires i < j < |v| && v[i] == v[j]
    ensures multiset(v)[v[i]] >= 2
  {
    assert v == v[..i] + [v[i]] + v[i + 1..j] + [v[j]] + v[j + 1..];
  }

  lemma {:induction false} OnceIn(v: seq<Row>, x: Row)
    requires Distinct(v)
    ensures multiset(v)[x] <= 1
  {
    if v != [] {
      assert v == [v[0]] + v[1..];
      OnceIn(v[1..], x);
      if x == v[0] { assert x !in v[1..]; }
    }
  }

  // ---------------------------------------------------------------- what a pass in this order computes

  /** What a record is derived from: its parent's entry if the parent's row sorts first, else the default entry. */
  ghost predicate BuiltAt(rules: Rules, s: Store, n: nat, e: map<Id, Derived>, id: Id) {
    && id in e && (ParentFirst(s, n, id) ==> ParentId(s, n, id) in e)
    && e[id] == Derive(rules, Rec(s, id), if ParentFirst(s, n, id) then e[ParentId(s, n, id)] else DEFAULT_DERIVED)
  }

  /** Every record has an entry, and every entry is built that way. */
  ghost predicate Built(rules: Rules, s: Store, n: nat, e: map<Id, Derived>) {
    && (forall id :: id in e <==> 1 <= id <= n)
    && (forall id :: 1 <= id <= n ==> BuiltAt(rules, s, n, e, id))
  }

  lemma {:induction false} BuiltSame(rules: Rules, s: Store, n: nat, a: map<Id, Derived>, b: map<Id, Derived>, id: Id)
    requires Built(rules, s, n, a) && Built(rules, s, n, b) && 1 <= id <= n
    ensures a[id] == b[id]
    decreases |Earlier(s, n, id)|
  {
    assert BuiltAt(rules, s, n, a, id) && BuiltAt(rules, s, n, b, id);
    if ParentFirst(s, n, id) {
      EarlierShrinks(s, n, id);
      BuiltSame(rules, s, n, a, b, ParentId(s, n, id));
    }
  }

  /** At most one map solves the equation, on any store. */
  lemma BuiltUnique(rules: Rules, s: Store, n: nat, a: map<Id, Derived>, b: map<Id, Derived>)
    requires Built(rules, s, n, a) && Built(rules, s, n, b)
    ensures a == b
  {
    forall id | id in a ensures id in b && a[id] == b[id] {
      BuiltSame(rules, s, n, a, b, id);
    }
  }

  /** On an ordered store it is the recursion. */
  lemma {:induction false} BuiltExpected(rules: Rules, s: Store, n: nat, e: map<Id, Derived>, id: Id)
    requires Ordered(s, n) && Built(rules, s, n, e) && 1 <= id <= n
    ensures e[id] == Expected(rules, s, n, id)
    decreases |Earlier(s, n, id)|
  {
    ExpectedStep(rules, s, n, id);
    assert BuiltAt(rules, s, n, e, id);
    if !IsRoot(s, id) {
      OrderedParent(s, n, id);
      EarlierShrinks(s, n, id);
      BuiltExpected(rules, s, n, e, ParentId(s, n, id));
    }
  }

  /** The parent is grounded, but its row does not sort first. */
  ghost predicate LateParent(s: Store, n: nat, id: Id, k: nat) {
    1 <= id <= n && !IsRoot(s, id) && !ParentFirst(s, n, id) && Grounded(s, n, ParentId(s, n, id), k)
  }

  /** Every record that reaches a root has the entry of the recursion. */
  ghost predicate AllRight(rules: Rules, s: Store, n: nat, e: map<Id, Derived>) {
    forall id, k: nat :: Grounded(s, n, id, k) ==> id in e && e[id] == Value(rules, s, n, id, k)
  }

  /** Nothing of a parent's entry shows in its child's. */
  predicate Traceless(rules: Rules, r: Record, parent: Derived) {
    && parent.trust == 0
    && ChecksumFrom(rules, r, parent.checksum) == ChecksumFrom(rules, r, 0)
    && (GeneratedStakeModifier(r) || parent.modifierTime == None)
  }

  ghost predicate LateParentsTraceless(rules: Rules, s: Store, n: nat) {
    forall id, k: nat :: LateParent(s, n, id, k) ==>
      Traceless(rules, Rec(s, id), Value(rules, s, n, ParentId(s, n, id), k))
  }

  lemma ModShift(p: nat, b: nat)
    requires p < UINT256
    ensures (p + b) % UINT256 == b % UINT256 <==> p == 0
  {
  }

  lemma TracelessExact(rules: Rules, r: Record, parent: Derived)
    requires r.hashPrev != 0 && parent.trust < UINT256
    ensures Derive(rules, r, parent) == Derive(rules, r, DEFAULT_DERIVED) <==> Traceless(rules, r, parent)
  {
    ModShift(parent.trust, BlockTrust(rules, r));
  }

  lemma {:induction false} TracelessValue(rules: Rules, s: Store, n: nat, e: map<Id, Derived>, id: Id, k: nat)
    requires Built(rules, s, n, e) && LateParentsTraceless(rules, s, n) && Grounded(s, n, id, k)
    ensures id in e && e[id] == Value(rules, s, n, id, k)
    decreases k
  {
    assert BuiltAt(rules, s, n, e, id);
    if !IsRoot(s, id) {
      var p := ParentId(s, n, id);
      TracelessValue(rules, s, n, e, p, k - 1);
      if !ParentFirst(s, n, id) {
        assert LateParent(s, n, id, k - 1);
        TracelessExact(rules, Rec(s, id), Value(rules, s, n, p, k - 1));
      }
    }
  }

  /** A pass gets every entry right exactly if no late parent's entry would have shown. */
  lemma BuiltRightIff(rules: Rules, s: Store, n: nat, e: map<Id, Derived>)
    requires Built(rules, s, n, e)
    ensures AllRight(rules, s, n, e) <==> LateParentsTraceless(rules, s, n)
  {
    if LateParentsTraceless(rules, s, n) {
      forall id, k: nat | Grounded(s, n, id, k) ensures id in e && e[id] == Value(rules, s, n, id, k) {
        TracelessValue(rules, s, n, e, id, k);
      }
    }
    if AllRight(rules, s, n, e) {
      forall id, k: nat | LateParent(s, n, id, k)
        ensures Traceless(rules, Rec(s, id), Value(rules, s, n, ParentId(s, n, id), k))
      {
        assert BuiltAt(rules, s, n, e, id) && Grounded(s, n, id, k + 1);
        assert e[id] == Value(rules, s, n, id, k + 1);
        TracelessExact(rules, Rec(s, id), Value(rules, s, n, ParentId(s, n, id), k));
      }
    }
  }

  /** The trust of every record that reaches a root is that of the recursion. */
  ghost predicate TrustsRight(rules: Rules, s: Store, n: nat, e: map<Id, Derived>) {
    forall id, k: nat :: Grounded(s, n, id, k) ==> id in e && e[id].trust == Value(rules, s, n, id, k).trust
  }

  /** A parent that sorts after its child has nothing to hand down. */
  ghost predicate LateParentsWeightless(rules: Rules, s: Store, n: nat) {
    forall id, k: nat :: LateParent(s, n, id, k) ==> Value(rules, s, n, ParentId(s, n, id), k).trust == 0
  }

  lemma {:induction false} WeightlessTrust(rules: Rules, s: Store, n: nat, e: map<Id, Derived>, id: Id, k: nat)
    requires Built(rules, s, n, e) && LateParentsWeightless(rules, s, n) && Grounded(s, n, id, k)
    ensures id in e && e[id].trust == Value(rules, s, n, id, k).trust
    decreases k
  {
    assert BuiltAt(rules, s, n, e, id);
    if !IsRoot(s, id) {
      WeightlessTrust(rules, s, n, e, ParentId(s, n, id), k - 1);
      if !ParentFirst(s, n, id) { assert LateParent(s, n, id, k - 1); }
    }
  }

  /** A pass gets every trust right exactly if no late parent has any. */
  lemma TrustRightIff(rules: Rules, s: Store, n: nat, e: map<Id, Derived>)
    requires Built(rules, s, n, e)
    ensures TrustsRight(rules, s, n, e) <==> LateParentsWeightless(rules, s, n)
  {
    if LateParentsWeightless(rules, s, n) {
      forall id, k: nat | Grounded(s, n, id, k)
        ensures id in e && e[id].trust == Value(rules, s, n, id, k).trust
      {
        WeightlessTrust(rules, s, n, e, id, k);
      }
    }
    if TrustsRight(rules, s, n, e) {
      forall id, k: nat | LateParent(s, n, id, k) ensures Value(rules, s, n, ParentId(s, n, id), k).trust == 0 {
        assert BuiltAt(rules, s, n, e, id) && Grounded(s, n, id, k + 1);
        assert e[id].trust == Value(rules, s, n, id, k + 1).trust;
        ModShift(Value(rules, s, n, ParentId(s, n, id), k).trust, BlockTrust(rules, Rec(s, id)));
      }
    }
  }
}
